/** struct json_parser and the routines of json.c that work on it: a cursor
    into the input, the line count, the skip_space flag and the allocation
    list.  Each routine is proved to do what the matching function of
    Grammar describes; parse_error's longjmp is an Err outcome that every
    caller hands straight back. */
module JsonParser {
  import opened Ascii
  import opened Unicode
  import opened JsonTypes
  import opened Grammar
  import opened Arena

  /** A routine's outcome and final cursor agree with the scan spec. */
  ghost predicate Reflects<T>(r: Outcome<T>, pos: nat, spec: Scan<T>)
  {
    match spec
    case Parsed(v, next) => r == Ok(v) && pos == next
    case Failed(e, at) => r == Err(e) && pos == at
  }

  /** Every block of the list now was on it before or has been allocated
      since. */
  twostate predicate Owned(new now: seq<Block>, before: seq<Block>)
  {
    forall k :: 0 <= k < |now| ==> now[k] in before || fresh(now[k])
  }

  /** Every block of the list before is still on it. */
  ghost predicate Keeps(now: seq<Block>, before: seq<Block>)
  {
    forall b :: b in before ==> b in now
  }

  /** A list that is the one before with d blocks in front keeps it, and
      its blocks from d on were on it. */
  lemma Prepended(now: seq<Block>, before: seq<Block>, d: nat)
    requires d <= |now| && now[d..] == before
    ensures Keeps(now, before)
    ensures forall k :: d <= k < |now| ==> now[k] in before
  {
    forall b | b in before
      ensures b in now
    {
      var k :| 0 <= k < |before| && before[k] == b;
      assert now[d + k] == b;
    }
  }

  class Parser {
    /** The input buffer; p->str is input[pos..]. */
    const input: seq<char>
    var pos: nat
    var line: int
    var skipSpace: bool
    /** The handle's allocation list, which json_parse keeps across calls. */
    const arena: Arena

    /** The cursor is inside the buffer, line is one more than the line
        breaks before it, and it never stops between a CR and its LF. */
    ghost predicate Scanning()
      reads this
    {
      && Buffer(input) && pos < |input|
      && line == LineAt(input, pos)
      && !(0 < pos && input[pos - 1] == '\r' && input[pos] == '\n')
    }

    ghost predicate Valid()
      reads this, arena, arena.blocks
    {
      Scanning() && arena.Valid()
    }

    /** The set-up of json_parse (json.c:495-497): skip_space on, the cursor
        at the start of the C string text, line 1. */
    constructor (text: seq<char>, arena: Arena)
      requires IsCText(text)
      ensures input == text + ['\0'] && this.arena == arena
      ensures pos == 0 && line == 1 && skipSpace
      ensures Scanning()
    {
      TextBuffer(text);
      input := text + ['\0'];
      this.arena := arena;
      pos := 0;
      line := 1;
      skipSpace := true;
    }

    /** skip_space (json.c:29-56). */
    method SkipSpace()
      requires Scanning()
      modifies this`pos, this`line
      ensures Scanning()
      ensures pos == SkipWs(input, old(pos))
    {
      var s := input;
      var str := pos;
      ghost var end := SkipWs(s, str);
      while true
        invariant str < |s| && SkipWs(s, str) == end
        invariant line == LineAt(s, str)
        invariant !(0 < str && s[str - 1] == '\r' && s[str] == '\n')
        decreases |s| - str
      {
        var c := s[str];
        if c == '\n' {
          SkipStep(s, str, str + 1);
          line := line + 1;
          str := str + 1;
        } else if c == '\r' {
          SkipStep(s, str, if s[str + 1] == '\n' then str + 2 else str + 1);
          line := line + 1;
          str := str + 1;
          if s[str] == '\n' {
            str := str + 1;
          }
        } else if c == '\t' || c == ' ' {
          SkipStep(s, str, str + 1);
          str := str + 1;
        } else {
          pos := str;
          return;
        }
      }
    }

    /** next (json.c:110-113): the byte under the cursor, which is the NUL
        only at the end of the input. */
    function Next(): (c: char)
      reads this
      requires Scanning()
      ensures c == input[pos]
      ensures c == '\0' <==> pos == |input| - 1
    {
      input[pos]
    }

    /** consume (json.c:115-121).  No caller consumes a NUL or a line break,
        and so the line count stays right. */
    method Consume() returns (c: char)
      requires Scanning() && input[pos] != '\0' && input[pos] != '\n' && input[pos] != '\r'
      modifies this`pos, this`line
      ensures Scanning()
      ensures c == old(input[pos]) && pos == Advance(input, old(pos), skipSpace)
    {
      c := input[pos];
      pos := pos + 1;
      if skipSpace {
        SkipSpace();
      }
    }

    /** expect (json.c:135-145). */
    method Expect(ch: char) returns (r: Outcome<()>)
      requires Scanning() && ch != '\n' && ch != '\r'
      modifies this`pos, this`line
      ensures Scanning()
      ensures Reflects(r, pos, ExpectAt(input, old(pos), ch, skipSpace))
    {
      if Next() != ch {
        return Err(Expected(Next(), ch));
      }
      if ch != '\0' {
        var _ := Consume();
      }
      return Ok(());
    }

    /** One round of the loop of parse_hexquad (json.c:152-161): the value
        of the hex digit under the cursor, which is consumed. */
    method ParseHexDigit() returns (r: Outcome<nat>)
      requires Scanning() && !skipSpace
      modifies this`pos, this`line
      ensures Scanning()
      ensures Reflects(r, pos, DigitAt(input, old(pos)))
    {
      if !IsXDigit(Next()) {
        return Err(Unexpected(input, pos));
      }
      var ch := Consume();
      return Ok(HexDigitValue(ch));
    }

    /** parse_hexquad (json.c:147-164), with skip_space off.  The digits
        are gathered as val * 16 + digit, which is the unsigned short
        shift-or of the source (see HexDigits). */
    method ParseHexquad() returns (r: Outcome<nat>)
      requires Scanning() && !skipSpace
      modifies this`pos, this`line
      ensures Scanning()
      ensures Reflects(r, pos, HexquadAt(input, old(pos)))
    {
      var val: nat := 0;
      var i := 0;
      while i < 4
        invariant Scanning() && i <= 4
        invariant HexDigits(input, pos, i, val) == HexquadAt(input, old(pos))
      {
        var d := ParseHexDigit();
        if d.Err? {
          return Err(d.error);
        }
        val := val * 16 + d.value;
        i := i + 1;
      }
      return Ok(val);
    }

    /** parse_escaped_char (json.c:166-191), with skip_space off. */
    method ParseEscapedChar() returns (r: Outcome<CodeUnit>)
      requires Scanning() && !skipSpace
      modifies this`pos, this`line
      ensures Scanning()
      ensures Reflects(r, pos, EscapeAt(input, old(pos)))
    {
      var e := Expect('\\');
      if e.Err? {
        r := Err(e.error);
      } else if Next() == 'u' {
        var _ := Consume();
        var v := ParseHexquad();
        r := if v.Err? then Err(v.error) else Ok(v.value as CodeUnit);
      } else {
        var ch := EscapeLetter(Next());
        if ch.None? {
          r := Err(Unexpected(input, pos));
        } else {
          var _ := Consume();
          r := Ok(ch.value);
        }
      }
    }

    /** One round of the loop of parse_raw_string (json.c:228-253): the
        code units of one character, an escape, or a surrogate pair. */
    method ReadUnits() returns (r: Outcome<seq<CodeUnit>>)
      requires Scanning() && !skipSpace
      modifies this`pos, this`line
      ensures Scanning()
      ensures Reflects(r, pos, UnitsAt(input, old(pos)))
    {
      if Next() == '\\' {
        var u := ParseEscapedChar();
        if u.Err? {
          return Err(u.error);
        }
        if IsHighSurrogate(u.value) {
          if Next() == '\\' {
            var u2 := ParseEscapedChar();
            if u2.Err? {
              return Err(u2.error);
            }
            if IsLowSurrogate(u2.value) {
              return Ok([CombineSurrogates(u.value, u2.value)]);
            }
            return Ok([Replacement, u2.value]);
          }
          return Ok([Replacement]);
        } else if IsLowSurrogate(u.value) {
          return Ok([Replacement]);
        }
        return Ok([u.value]);
      }
      if IsCntrl(Next()) {
        return Err(Unexpected(input, pos));
      }
      var ch := Consume();
      return Ok([ch as int as CodeUnit]);
    }

    /** The growth check of parse_raw_string (json.c:257-264) for a buffer
        buf of alloc bytes, the newest block of the list, holding len bytes:
        it is kept while six bytes and the NUL still fit, grown to 3/2 of
        its size otherwise, and "too long string" once alloc * 3 would
        overflow. */
    method MakeRoom(buf: Block, alloc: nat, len: nat) returns (r: Outcome<Block>, size: nat)
      requires arena.Valid() && |arena.blocks| > 0 && arena.blocks[0] == buf
      requires alloc >= InitialStringAlloc && buf.data.Length == alloc && len < alloc
      modifies arena, arena.blocks
      ensures arena.Valid()
      ensures Grown(len, alloc) == if r.Ok? then Some(size) else None
      ensures r.Err? ==> r.error == TooLongString && arena.blocks == old(arena.blocks)
      ensures r.Ok? ==> && arena.blocks == [r.value] + old(arena.blocks)[1..]
                        && r.value.data.Length == size && len + 7 <= size
                        && r.value.data[..len] == old(buf.data[..len])
                        && (r.value == buf || (fresh(r.value) && fresh(r.value.data)))
    {
      if len > alloc - 6 - 1 {
        if alloc > SizeMax / 3 {
          return Err(TooLongString), alloc;
        }
        size := alloc * 3 / 2;
        r := arena.Realloc(buf, size);
        ReplaceAt(old(arena.blocks), 0, r.value);
        return r, size;
      }
      return Ok(buf), alloc;
    }

    /** parse_raw_string (json.c:219-274): the bytes of the string at the
        cursor, left with a NUL after them in a new block at the head of
        the list. */
    method ParseRawString() returns (r: Outcome<seq<Byte>>)
      requires Valid() && skipSpace
      modifies this`pos, this`line, this`skipSpace, arena, arena.blocks
      ensures Valid()
      ensures Reflects(r, pos, StringAt(input, old(pos)))
      ensures |arena.blocks| == |old(arena.blocks)| + 1 && arena.blocks[1..] == old(arena.blocks)
      ensures fresh(arena.blocks[0])
      ensures r.Ok? ==> && skipSpace && |r.value| < arena.blocks[0].data.Length
                        && arena.blocks[0].data[..|r.value| + 1] == r.value + [0]
    {
      var a := arena.Alloc(InitialStringAlloc);
      var e := Expect('"');
      if e.Err? {
        return Err(e.error);
      }
      r := StringBody(a.value);
    }

    /** parse_raw_string after the opening quote (json.c:225-273), with buf
        the fresh block of InitialStringAlloc bytes at the head of the
        list. */
    method StringBody(buf: Block) returns (r: Outcome<seq<Byte>>)
      requires Valid() && skipSpace
      requires |arena.blocks| > 0 && arena.blocks[0] == buf && buf.data.Length == InitialStringAlloc
      modifies this`pos, this`line, this`skipSpace, arena, arena.blocks, buf.data
      ensures Valid()
      ensures Reflects(r, pos, StringFrom(input, old(pos), [], InitialStringAlloc))
      ensures |arena.blocks| == |old(arena.blocks)| && arena.blocks[1..] == old(arena.blocks[1..])
      ensures arena.blocks[0] == buf || fresh(arena.blocks[0])
      ensures r.Ok? ==> && skipSpace && |r.value| < arena.blocks[0].data.Length
                        && arena.blocks[0].data[..|r.value| + 1] == r.value + [0]
    {
      var alloc: nat, len: nat := InitialStringAlloc, 0;
      var b := buf;
      ghost var out: seq<Byte> := [];
      skipSpace := false;
      while Next() != '"'
        invariant Valid() && !skipSpace
        invariant |arena.blocks| == |old(arena.blocks)| && arena.blocks[1..] == old(arena.blocks[1..])
        invariant arena.blocks[0] == b && (b == buf || (fresh(b) && fresh(b.data)))
        invariant alloc >= InitialStringAlloc && b.data.Length == alloc && len < alloc
        invariant b.data[..len] == out
        invariant StringFrom(input, pos, out, alloc) == StringFrom(input, old(pos), [], InitialStringAlloc)
        decreases |input| - pos
      {
        var ok;
        ok, b, alloc, len, out := StringRound(b, alloc, len, out);
        if ok.Err? {
          return Err(ok.error);
        }
      }
      var text := Close(b, len);
      return Ok(text);
    }

    /** The end of parse_raw_string (json.c:267-273): skip_space back on,
        the closing quote consumed, and a NUL after the len bytes of b. */
    method Close(b: Block, len: nat) returns (text: seq<Byte>)
      requires Valid() && Next() == '"' && len < b.data.Length
      modifies this`pos, this`line, this`skipSpace, b.data
      ensures Valid() && skipSpace && pos == Advance(input, old(pos), true)
      ensures text == old(b.data[..len]) && b.data[..len + 1] == text + [0]
    {
      skipSpace := true;
      text := b.data[..len];
      b.data[len] := 0;
      assert b.data[..len + 1] == text + [0];
      var _ := Consume();
    }

    /** One round of the loop of parse_raw_string (json.c:228-266): the code
        units at the cursor, then their UTF-8 bytes appended to the len
        bytes out of buf. */
    method StringRound(buf: Block, alloc: nat, len: nat, ghost out: seq<Byte>)
      returns (r: Outcome<()>, buf': Block, alloc': nat, len': nat, ghost out': seq<Byte>)
      requires Valid() && !skipSpace && Next() != '"'
      requires |arena.blocks| > 0 && arena.blocks[0] == buf
      requires alloc >= InitialStringAlloc && buf.data.Length == alloc && len < alloc
      requires buf.data[..len] == out
      modifies this`pos, this`line, arena, arena.blocks, buf.data
      ensures Valid() && (r.Ok? ==> old(pos) < pos)
      ensures |arena.blocks| == |old(arena.blocks)| && arena.blocks[1..] == old(arena.blocks[1..])
      ensures arena.blocks[0] == buf' && (buf' == buf || (fresh(buf') && fresh(buf'.data)))
      ensures alloc' >= InitialStringAlloc && buf'.data.Length == alloc' && len' < alloc'
      ensures buf'.data[..len'] == out'
      ensures StringFrom(input, old(pos), out, alloc)
              == if r.Err? then Failed(r.error, pos) else StringFrom(input, pos, out', alloc')
    {
      var u := ReadUnits();
      if u.Err? {
        return Err(u.error), buf, alloc, len, out;
      }
      UnitsRoom(input, old(pos));
      r, buf', alloc', len', out' := Append(buf, alloc, len, out, u.value);
    }

    /** The growth check and encode_utf8 call of parse_raw_string
        (json.c:256-266): the bytes of units appended to the len bytes out
        of buf, in buf itself or in the block it grew into. */
    method Append(buf: Block, alloc: nat, len: nat, ghost out: seq<Byte>, units: seq<CodeUnit>)
      returns (r: Outcome<()>, buf': Block, alloc': nat, len': nat, ghost out': seq<Byte>)
      requires arena.Valid() && |arena.blocks| > 0 && arena.blocks[0] == buf
      requires alloc >= InitialStringAlloc && buf.data.Length == alloc && len < alloc
      requires buf.data[..len] == out && |Encode(units)| <= 6
      modifies arena, arena.blocks, buf.data
      ensures arena.Valid()
      ensures |arena.blocks| == |old(arena.blocks)| && arena.blocks[1..] == old(arena.blocks[1..])
      ensures arena.blocks[0] == buf' && (buf' == buf || (fresh(buf') && fresh(buf'.data)))
      ensures alloc' >= InitialStringAlloc && buf'.data.Length == alloc' && len' < alloc'
      ensures buf'.data[..len'] == out'
      ensures r.Err? <==> Grown(len, alloc).None?
      ensures r.Err? ==> r.error == TooLongString
      ensures r.Ok? ==> Grown(len, alloc) == Some(alloc') && out' == out + Encode(units)
    {
      var g, size := MakeRoom(buf, alloc, len);
      if g.Err? {
        return Err(g.error), buf, alloc, len, out;
      }
      buf', alloc' := g.value, size;
      ghost var before := buf'.data[..];
      assert before[..len] == out;
      var n := EncodeUtf8(buf'.data, len, units);
      WrittenPrefix(buf'.data[..], before, len, Encode(units));
      len', out' := len + n, out + Encode(units);
      r := Ok(());
    }

    /** parse_string (json.c:277-283): the value node, then the bytes of the
        string, each in a new block at the head of the list. */
    method ParseString() returns (r: Outcome<Value>)
      requires Valid() && skipSpace
      modifies this`pos, this`line, this`skipSpace, arena, arena.blocks
      ensures Valid()
      ensures Reflects(r, pos, StringValueAt(input, old(pos)))
      ensures |arena.blocks| == |old(arena.blocks)| + 2 && arena.blocks[2..] == old(arena.blocks)
      ensures fresh(arena.blocks[0]) && fresh(arena.blocks[1]) && arena.blocks[1].data.Length == ValueSize
      ensures r.Ok? ==> && skipSpace && r.value.String?
                        && |r.value.text| < arena.blocks[0].data.Length
                        && arena.blocks[0].data[..|r.value.text| + 1] == r.value.text + [0]
    {
      var a := arena.Alloc(ValueSize);
      var t := ParseRawString();
      if t.Err? {
        return Err(t.error);
      }
      return Ok(String(t.value));
    }

    /** while (isdigit(next(p))) consume(p); in parse_number
        (json.c:378-379, 389-390, 402-403). */
    method SkipDigits()
      requires Scanning() && skipSpace
      modifies this`pos, this`line
      ensures Scanning() && pos == DigitRun(input, old(pos))
    {
      while IsDigit(Next())
        invariant Scanning() && DigitRun(input, pos) == DigitRun(input, old(pos))
        decreases |input| - pos
      {
        var _ := Consume();
      }
    }

    /** A digit that must be there and the digits after it
        (json.c:385-390, 398-403). */
    method ParseDigits() returns (r: Outcome<()>)
      requires Scanning() && skipSpace
      modifies this`pos, this`line
      ensures Scanning()
      ensures Reflects(r, pos, DigitsAt(input, old(pos)))
    {
      if !IsDigit(Next()) {
        return Err(Unexpected(input, pos));
      }
      var _ := Consume();
      SkipDigits();
      return Ok(());
    }

    /** The integer part in parse_number (json.c:375-380). */
    method ParseInteger() returns (r: Outcome<()>)
      requires Scanning() && skipSpace
      modifies this`pos, this`line
      ensures Scanning()
      ensures Reflects(r, pos, IntegerAt(input, old(pos)))
    {
      if !IsDigit(Next()) {
        return Err(Unexpected(input, pos));
      }
      var c := Consume();
      if c != '0' {
        SkipDigits();
      }
      return Ok(());
    }

    /** The optional fraction in parse_number (json.c:382-390). */
    method ParseFraction() returns (r: Outcome<()>)
      requires Scanning() && skipSpace
      modifies this`pos, this`line
      ensures Scanning()
      ensures Reflects(r, pos, FractionAt(input, old(pos)))
    {
      if Next() != '.' {
        return Ok(());
      }
      var _ := Consume();
      r := ParseDigits();
    }

    /** The optional exponent in parse_number (json.c:392-403). */
    method ParseExponent() returns (r: Outcome<()>)
      requires Scanning() && skipSpace
      modifies this`pos, this`line
      ensures Scanning()
      ensures Reflects(r, pos, ExponentAt(input, old(pos)))
    {
      if ToLower(Next()) != 'e' {
        return Ok(());
      }
      var _ := Consume();
      if Next() == '+' || Next() == '-' {
        var _ := Consume();
      }
      r := ParseDigits();
    }

    /** The grammar check of parse_number (json.c:371-403). */
    method ScanNumber() returns (r: Outcome<()>)
      requires Scanning() && skipSpace
      modifies this`pos, this`line
      ensures Scanning()
      ensures Reflects(r, pos, NumberScanAt(input, old(pos)))
    {
      if Next() == '-' {
        var _ := Consume();
      }
      r := ParseInteger();
      if r.Err? {
        return;
      }
      r := ParseFraction();
      if r.Err? {
        return;
      }
      r := ParseExponent();
    }

    /** parse_number (json.c:365-410): the value node, the scan, and the
        text strtod converts from where the number began; "strtod failed"
        when it converts nothing. */
    method ParseNumber() returns (r: Outcome<Value>)
      requires Valid() && skipSpace
      modifies this`pos, this`line, arena, arena.blocks
      ensures Valid()
      ensures Reflects(r, pos, NumberAt(input, old(pos)))
      ensures |arena.blocks| == |old(arena.blocks)| + 1 && arena.blocks[1..] == old(arena.blocks)
      ensures fresh(arena.blocks[0]) && arena.blocks[0].data.Length == ValueSize
    {
      var start := pos;
      var a := arena.Alloc(ValueSize);
      var s := ScanNumber();
      if s.Err? {
        return Err(s.error);
      }
      var text := StrtodText(input, start);
      if text == [] {
        return Err(ConversionFailed);
      }
      return Ok(Number(text));
    }

    /** The expect loop of parse_keyword (json.c:417-418). */
    method ExpectLetters(word: string) returns (r: Outcome<()>)
      requires Scanning() && skipSpace && |word| > 0
      requires forall k :: 0 <= k < |word| ==> 'a' <= word[k] <= 'z'
      modifies this`pos, this`line
      ensures Scanning()
      ensures Reflects(r, pos, Letters(input, old(pos), word, 1))
    {
      var i := 1;
      while i < |word|
        invariant Scanning() && 1 <= i <= |word|
        invariant Letters(input, pos, word, i) == Letters(input, old(pos), word, 1)
        decreases |word| - i
      {
        var e := Expect(word[i]);
        if e.Err? {
          return Err(e.error);
        }
        i := i + 1;
      }
      return Ok(());
    }

    /** parse_keyword (json.c:412-420): the first letter, which parse_value
        has matched already, the others, and then the value node. */
    method ParseKeyword(word: string) returns (r: Outcome<()>)
      requires Valid() && skipSpace && |word| > 0 && Next() == word[0]
      requires forall k :: 0 <= k < |word| ==> 'a' <= word[k] <= 'z'
      modifies this`pos, this`line, arena, arena.blocks
      ensures Valid()
      ensures Reflects(r, pos, KeywordAt(input, old(pos), word))
      ensures r.Err? ==> arena.blocks == old(arena.blocks)
      ensures r.Ok? ==> && |arena.blocks| == |old(arena.blocks)| + 1 && arena.blocks[1..] == old(arena.blocks)
                        && fresh(arena.blocks[0]) && arena.blocks[0].data.Length == ValueSize
    {
      var _ := Consume();
      r := ExpectLetters(word);
      if r.Ok? {
        var a := arena.Alloc(ValueSize);
      }
    }

    /** The keyword cases of parse_value (json.c:435-450): true, false
        or null by the first letter. */
    method ParseLiteral(c: char) returns (r: Outcome<Value>)
      requires Valid() && skipSpace && Next() == c && (c == 't' || c == 'f' || c == 'n')
      modifies this`pos, this`line, arena, arena.blocks
      ensures Valid() && (r.Ok? ==> skipSpace)
      ensures Reflects(r, pos, LiteralAt(input, old(pos)))
      ensures Keeps(arena.blocks, old(arena.blocks)) && Owned(arena.blocks, old(arena.blocks))
    {
      var k;
      if c == 't' {
        k := ParseKeyword("true");
        r := if k.Err? then Err(k.error) else Ok(Boolean(true));
      } else if c == 'f' {
        k := ParseKeyword("false");
        r := if k.Err? then Err(k.error) else Ok(Boolean(false));
      } else {
        k := ParseKeyword("null");
        r := if k.Err? then Err(k.error) else Ok(Null);
      }
      Prepended(arena.blocks, old(arena.blocks), if k.Err? then 0 else 1);
    }

    /** parse_value (json.c:422-453): dispatch on the byte at the cursor. */
    method ParseValue() returns (r: Outcome<Value>)
      requires Valid() && skipSpace
      modifies this`pos, this`line, this`skipSpace, arena, arena.blocks
      ensures Valid() && (r.Ok? ==> skipSpace)
      ensures Reflects(r, pos, ValueAt(input, old(pos)))
      ensures Keeps(arena.blocks, old(arena.blocks)) && Owned(arena.blocks, old(arena.blocks))
      decreases |input| - pos, 2
    {
      var c := Next();
      if c == '{' {
        r := ParseObject();
      } else if c == '[' {
        r := ParseArray();
      } else if c == '"' {
        r := ParseString();
        Prepended(arena.blocks, old(arena.blocks), 2);
      } else if c == '-' || IsDigit(c) {
        r := ParseNumber();
        Prepended(arena.blocks, old(arena.blocks), 1);
      } else if c == 't' || c == 'f' || c == 'n' {
        r := ParseLiteral(c);
      } else {
        r := Err(Unexpected(input, pos));
      }
    }

    /** One member of parse_object (json.c:303-305): the name, the colon
        and the value. */
    method ParseMember() returns (r: Outcome<Property>)
      requires Valid() && skipSpace
      modifies this`pos, this`line, this`skipSpace, arena, arena.blocks
      ensures Valid() && (r.Ok? ==> skipSpace)
      ensures Reflects(r, pos, Member(input, old(pos)))
      ensures Keeps(arena.blocks, old(arena.blocks)) && Owned(arena.blocks, old(arena.blocks))
      decreases |input| - pos, 0
    {
      var name := ParseRawString();
      if name.Err? {
        return Err(name.error);
      }
      var e := Expect(':');
      if e.Err? {
        return Err(e.error);
      }
      var v := ParseValue();
      if v.Err? {
        return Err(v.error);
      }
      return Ok(Property(name.value, v.value));
    }

    /** parse_object (json.c:287-326).  The expect of the opening brace
        always matches, parse_value having dispatched on it. */
    method ParseObject() returns (r: Outcome<Value>)
      requires Valid() && skipSpace && Next() == '{'
      modifies this`pos, this`line, this`skipSpace, arena, arena.blocks
      ensures Valid() && (r.Ok? ==> skipSpace)
      ensures Reflects(r, pos, ObjectAt(input, old(pos)))
      ensures Keeps(arena.blocks, old(arena.blocks)) && Owned(arena.blocks, old(arena.blocks))
      decreases |input| - pos, 1
    {
      var node := arena.Alloc(ValueSize);
      var _ := Consume();
      if Next() == '}' {
        var _ := Consume();
        return Ok(Object([]));
      }
      r := ParseMembers();
    }

    /** The member loop of parse_object (json.c:300-323): the properties
        gathered in source order, their table grown by one entry per
        member. */
    method ParseMembers() returns (r: Outcome<Value>)
      requires Valid() && skipSpace
      modifies this`pos, this`line, this`skipSpace, arena, arena.blocks
      ensures Valid() && (r.Ok? ==> skipSpace)
      ensures Reflects(r, pos, Members(input, old(pos), []))
      ensures Keeps(arena.blocks, old(arena.blocks)) && Owned(arena.blocks, old(arena.blocks))
      decreases |input| - pos, 3
    {
      var props: seq<Property> := [];
      var table: Block? := null;
      while true
        invariant Valid() && skipSpace && |props| <= MaxItems
        invariant Members(input, pos, props) == Members(input, old(pos), [])
        invariant Keeps(arena.blocks, old(arena.blocks)) && Owned(arena.blocks, old(arena.blocks))
        invariant table == null || (table in arena.blocks && fresh(table))
        invariant (table == null) == (props == []) && (table != null ==> table.data.Length == PropertySize * |props|)
        decreases |input| - pos
      {
        var done;
        done, props, table := MemberRound(props, table);
        if done.Err? {
          return Err(done.error);
        }
        if done.value {
          break;
        }
      }
      var _ := Consume();
      return Ok(Object(props));
    }

    /** One round of the member loop of parse_object (json.c:303-321): a
        member, the count check, the table grown to hold it, and then the
        closing brace (true) or a comma (false). */
    method MemberRound(props: seq<Property>, table: Block?)
      returns (r: Outcome<bool>, props': seq<Property>, table': Block?)
      requires Valid() && skipSpace && |props| <= MaxItems && (table == null || table in arena.blocks)
      modifies this`pos, this`line, this`skipSpace, arena, arena.blocks
      ensures Valid() && (r.Ok? ==> skipSpace) && |props'| <= MaxItems
      ensures r.Err? ==> Members(input, old(pos), props) == Failed(r.error, pos)
      ensures r.Ok? && r.value ==> && Next() == '}'
                                   && Members(input, old(pos), props) == Parsed(Object(props'), Advance(input, pos, true))
      ensures r.Ok? && !r.value ==> old(pos) < pos && Members(input, pos, props') == Members(input, old(pos), props)
      ensures forall b :: b in old(arena.blocks) && b != table ==> b in arena.blocks
      ensures Owned(arena.blocks, old(arena.blocks))
      ensures r.Ok? ==> table' != null && table' in arena.blocks && fresh(table')
      ensures r.Ok? ==> |props'| == |props| + 1 && props'[..|props|] == props && table'.data.Length == PropertySize * |props'|
      ensures r.Ok? && table != null ==> table !in arena.blocks
      decreases |input| - pos, 1
    {
      var m := ParseMember();
      if m.Err? {
        return Err(m.error), props, null;
      }
      var g := GrowTable(table, |props|, PropertySize, TooBigObject);
      if g.Err? {
        return Err(g.error), props, null;
      }
      table' := g.value;
      props' := props + [m.value];
      r := Separator('}');
    }

    /** parse_array (json.c:328-363).  The expect of the opening bracket
        always matches, parse_value having dispatched on it. */
    method ParseArray() returns (r: Outcome<Value>)
      requires Valid() && skipSpace && Next() == '['
      modifies this`pos, this`line, this`skipSpace, arena, arena.blocks
      ensures Valid() && (r.Ok? ==> skipSpace)
      ensures Reflects(r, pos, ArrayAt(input, old(pos)))
      ensures Keeps(arena.blocks, old(arena.blocks)) && Owned(arena.blocks, old(arena.blocks))
      decreases |input| - pos, 1
    {
      var node := arena.Alloc(ValueSize);
      var _ := Consume();
      if Next() == ']' {
        var _ := Consume();
        return Ok(Array([]));
      }
      r := ParseElements();
    }

    /** The element loop of parse_array (json.c:341-360): the values
        gathered in source order, their table grown by one entry per
        value. */
    method ParseElements() returns (r: Outcome<Value>)
      requires Valid() && skipSpace
      modifies this`pos, this`line, this`skipSpace, arena, arena.blocks
      ensures Valid() && (r.Ok? ==> skipSpace)
      ensures Reflects(r, pos, Elements(input, old(pos), []))
      ensures Keeps(arena.blocks, old(arena.blocks)) && Owned(arena.blocks, old(arena.blocks))
      decreases |input| - pos, 4
    {
      var values: seq<Value> := [];
      var table: Block? := null;
      while true
        invariant Valid() && skipSpace && |values| <= MaxItems
        invariant Elements(input, pos, values) == Elements(input, old(pos), [])
        invariant Keeps(arena.blocks, old(arena.blocks)) && Owned(arena.blocks, old(arena.blocks))
        invariant table == null || (table in arena.blocks && fresh(table))
        invariant (table == null) == (values == []) && (table != null ==> table.data.Length == AddressSize * |values|)
        decreases |input| - pos
      {
        var done;
        done, values, table := ElementRound(values, table);
        if done.Err? {
          return Err(done.error);
        }
        if done.value {
          break;
        }
      }
      var _ := Consume();
      return Ok(Array(values));
    }

    /** One round of the element loop of parse_array (json.c:343-358): a
        value, the count check, the table grown to hold it, and then the
        closing bracket (true) or a comma (false). */
    method ElementRound(values: seq<Value>, table: Block?)
      returns (r: Outcome<bool>, values': seq<Value>, table': Block?)
      requires Valid() && skipSpace && |values| <= MaxItems && (table == null || table in arena.blocks)
      modifies this`pos, this`line, this`skipSpace, arena, arena.blocks
      ensures Valid() && (r.Ok? ==> skipSpace) && |values'| <= MaxItems
      ensures r.Err? ==> Elements(input, old(pos), values) == Failed(r.error, pos)
      ensures r.Ok? && r.value ==> && Next() == ']'
                                   && Elements(input, old(pos), values) == Parsed(Array(values'), Advance(input, pos, true))
      ensures r.Ok? && !r.value ==> old(pos) < pos && Elements(input, pos, values') == Elements(input, old(pos), values)
      ensures forall b :: b in old(arena.blocks) && b != table ==> b in arena.blocks
      ensures Owned(arena.blocks, old(arena.blocks))
      ensures r.Ok? ==> table' != null && table' in arena.blocks && fresh(table')
      ensures r.Ok? ==> |values'| == |values| + 1 && values'[..|values|] == values && table'.data.Length == AddressSize * |values'|
      ensures r.Ok? && table != null ==> table !in arena.blocks
      decreases |input| - pos, 3
    {
      var v := ParseValue();
      if v.Err? {
        return Err(v.error), values, null;
      }
      var g := GrowTable(table, |values|, AddressSize, TooBigArray);
      if g.Err? {
        return Err(g.error), values, null;
      }
      table' := g.value;
      values' := values + [v.value];
      r := Separator(']');
    }

    /** The end of a round of the loops of parse_object and parse_array
        (json.c:319-321, 356-358): true at the closing byte, which is left
        for the caller, and otherwise the expect of a comma. */
    method Separator(close: char) returns (r: Outcome<bool>)
      requires Scanning() && skipSpace && (close == '}' || close == ']')
      modifies this`pos, this`line
      ensures Scanning()
      ensures input[old(pos)] == close ==> r == Ok(true) && pos == old(pos)
      ensures input[old(pos)] != close ==>
                var e := ExpectAt(input, old(pos), ',', true);
                && (e.Parsed? ==> r == Ok(false) && pos == e.next)
                && (e.Failed? ==> r == Err(e.error) && pos == e.at)
    {
      if Next() == close {
        return Ok(true);
      }
      var e := Expect(',');
      if e.Err? {
        return Err(e.error);
      }
      return Ok(false);
    }

    /** The count check and the mem_realloc of the table of a container
        (json.c:307-312, 345-350): "full" once count entries are there;
        otherwise a table of count + 1 entries of entry bytes, which always
        fits in a size_t, in place of the old one on the list. */
    method GrowTable(table: Block?, count: nat, entry: nat, full: Error) returns (r: Outcome<Block>)
      requires arena.Valid() && count <= MaxItems && entry <= PropertySize
      requires table == null || table in arena.blocks
      modifies arena, arena.blocks
      ensures arena.Valid()
      ensures r.Err? <==> count == MaxItems
      ensures r.Err? ==> r.error == full && arena.blocks == old(arena.blocks)
      ensures r.Ok? ==> && fresh(r.value) && r.value in arena.blocks
                        && r.value.data.Length == entry * (count + 1)
      ensures r.Ok? && table != null ==> && arena.blocks == Replace(old(arena.blocks), table, r.value)
                                         && table !in arena.blocks
      ensures r.Ok? && table == null ==> arena.blocks == [r.value] + old(arena.blocks)
      ensures forall b :: b in old(arena.blocks) && b != table ==> b in arena.blocks
      ensures forall k :: 0 <= k < |arena.blocks| ==>
                arena.blocks[k] in old(arena.blocks) || (r.Ok? && arena.blocks[k] == r.value)
    {
      if count == MaxItems {
        return Err(full);
      }
      TableBound(entry, count + 1);
      r := arena.Realloc(table, entry * (count + 1));
      if table != null {
        ReplaceMembers(old(arena.blocks), table, r.value);
      }
    }
  }

  /** json_parse (json.c:482-504): the tree of the C string text, or the
      line and error parse_error reports to the err callback.  The blocks
      of the tree join the list, which keeps those of earlier parses; on
      an error every block on the list is released, the earlier parses'
      included. */
  method Parse(arena: Arena, text: string) returns (r: Result<Value, Report>)
    requires arena.Valid() && IsCText(text)
    modifies arena, arena.blocks
    ensures arena.Valid()
    ensures r == Document(text)
    ensures r.Err? ==> arena.blocks == []
    ensures r.Ok? ==> Keeps(arena.blocks, old(arena.blocks)) && Owned(arena.blocks, old(arena.blocks))
  {
    var p := new Parser(text, arena);
    p.SkipSpace();
    var v := p.ParseValue();
    var error;
    if v.Ok? {
      var e := p.Expect('\0');
      if e.Ok? {
        return Ok(v.value);
      }
      error := e.error;
    } else {
      error := v.error;
    }
    var _ := arena.FreeAll();
    return Err(Report(p.line, error));
  }

  /** The largest table parse_object or parse_array asks for: MaxItems
      properties. */
  const TableMax: nat := PropertySize * MaxItems

  /** A table of count entries of entry bytes each, entry being an address
      or a property, is at most TableMax bytes. */
  lemma TableBound(entry: nat, count: nat)
    requires entry <= PropertySize && count <= MaxItems
    ensures entry * count <= TableMax
  {
    calc {
      entry * count;
    <= { MulLeft(entry, count, MaxItems); }
      entry * MaxItems;
    <= 
      PropertySize * MaxItems;
    }
  }

  lemma MulLeft(a: nat, b: nat, c: nat)
    requires b <= c
    ensures a * b <= a * c
  {
  }

  /** The blocks of Replace(b, x, y): those of b other than x, and y if x
      was there. */
  lemma ReplaceMembers(b: seq<Block>, x: Block, y: Block)
    requires x in b
    ensures y in Replace(b, x, y)
    ensures forall c :: c in b && c != x ==> c in Replace(b, x, y)
    ensures forall c :: c in Replace(b, x, y) ==> c in b || c == y
  {
  }
}
