/** UTF-16 surrogate pairs (RFC 2781 section 2) and the UTF-8 encoder of
    json.c (RFC 3629 section 3).  Code units are the C `unsigned int`s of
    parse_raw_string's buffer, output bytes the chars of a C string. */
module Unicode {

  /** A code unit of parse_raw_string's buffer.  Every unit the parser
      makes is a byte of the input, a \u escape of at most 0xFFFF, U+FFFD
      or a combined surrogate pair, so none exceeds U+10FFFF, and the
      unsigned int arithmetic on them never wraps. */
  newtype CodeUnit = x: int | 0 <= x < 0x11_0000

  /** U+FFFD, which json.c writes for an unpaired surrogate. */
  const Replacement: CodeUnit := 0xFFFD

  predicate IsHighSurrogate(u: CodeUnit)
  {
    0xD800 <= u <= 0xDBFF
  }

  predicate IsLowSurrogate(u: CodeUnit)
  {
    0xDC00 <= u <= 0xDFFF
  }

  /** The pairing formula of json.c, (hi << 10) + lo - 0x35FDC00; hi is at
      most 0xDBFF, so the shift is a multiplication by 0x400 and nothing
      wraps.  It always lands in the supplementary planes. */
  function CombineSurrogates(hi: CodeUnit, lo: CodeUnit): (c: CodeUnit)
    requires IsHighSurrogate(hi) && IsLowSurrogate(lo)
    ensures 0x10000 <= c <= 0x10FFFF
  {
    (hi as int * 0x400 + lo as int - 0x35F_DC00) as CodeUnit
  }

  /** The formula of json.c is the decoding rule of RFC 2781 section 2.2:
      0x10000 plus the ten payload bits of each unit. */
  lemma CombineIsRfc2781(hi: CodeUnit, lo: CodeUnit)
    requires IsHighSurrogate(hi) && IsLowSurrogate(lo)
    ensures CombineSurrogates(hi, lo) as int
            == 0x10000 + (hi as int - 0xD800) * 0x400 + (lo as int - 0xDC00)
  {
  }

  /** RFC 2781 section 2.1: the two units that encode a supplementary code point. */
  function HighSurrogateOf(c: CodeUnit): (u: CodeUnit)
    requires 0x10000 <= c
    ensures IsHighSurrogate(u)
  {
    (0xD800 + (c as int - 0x10000) / 0x400) as CodeUnit
  }

  function LowSurrogateOf(c: CodeUnit): (u: CodeUnit)
    requires 0x10000 <= c
    ensures IsLowSurrogate(u)
  {
    (0xDC00 + (c as int - 0x10000) % 0x400) as CodeUnit
  }

  /** Splitting a code point and pairing the halves gives it back. */
  lemma SplitThenCombine(c: CodeUnit)
    requires 0x10000 <= c
    ensures CombineSurrogates(HighSurrogateOf(c), LowSurrogateOf(c)) == c
  {
    var d := c as int - 0x10000;
    assert d == d / 0x400 * 0x400 + d % 0x400;
  }

  /** Pairing two surrogates and splitting the result gives them back. */
  lemma CombineThenSplit(hi: CodeUnit, lo: CodeUnit)
    requires IsHighSurrogate(hi) && IsLowSurrogate(lo)
    ensures HighSurrogateOf(CombineSurrogates(hi, lo)) == hi
    ensures LowSurrogateOf(CombineSurrogates(hi, lo)) == lo
  {
    var d := CombineSurrogates(hi, lo) as int - 0x10000;
    assert d == (hi as int - 0xD800) * 0x400 + (lo as int - 0xDC00);
    assert d / 0x400 == hi as int - 0xD800;
    assert d % 0x400 == lo as int - 0xDC00;
  }

  // ---------------------------------------------------------------------
  // encode_utf8

  /** A byte of the C char buffer encode_utf8 writes into. */
  newtype Byte = x: int | 0 <= x < 0x100

  /** A continuation byte as encode_utf8 builds it from the shifted code
      point x, 0x80 | (x & 0xbf): the mask keeps bit 7, which the 0x80 sets
      anyway, and the six low bits, so the byte is 0x80 plus x modulo 64. */
  function Continuation(x: nat): (b: Byte)
    ensures b as int / 64 == 2 && b as int % 64 == x % 64
  {
    (0x80 + x % 64) as Byte
  }

  /** A lead byte as encode_utf8 builds it, bm | (x & 0x7f), for a shifted
      code point x that fits below the marker bm: the mask keeps all of x
      and the bits of bm and x do not meet, so the or is a sum. */
  function Lead(bm: nat, x: nat): Byte
    requires x < 0x80 && bm + x < 0x100
  {
    (bm + x) as Byte
  }

  /** The number t of continuation bytes encode_utf8 writes after the lead byte. */
  function ContinuationCount(ch: CodeUnit): (t: nat)
    ensures t <= 3
  {
    if ch >= 0x10000 then 3 else if ch >= 0x800 then 2 else if ch >= 0x80 then 1 else 0
  }

  /** The marker encode_utf8 puts into the lead byte of a t + 1 byte sequence. */
  function LeadMarker(t: nat): (bm: nat)
    ensures bm < 0x100
  {
    if t == 3 then 0xF0 else if t == 2 then 0xE0 else if t == 1 then 0xC0 else 0
  }

  /** The code point shifted right by six bits d times: the shift by 6 * t
      and 6 * (t - j) of encode_utf8, written with literal amounts. */
  function ShiftedBySix(ch: CodeUnit, d: nat): nat
    requires d <= 3
  {
    if d == 0 then ch as nat else if d == 1 then ch as nat / 0x40
    else if d == 2 then ch as nat / 0x1000 else ch as nat / 0x4_0000
  }

  /** Byte j of the t + 1 bytes encode_utf8 writes for ch: the lead byte holds
      the bits above 6 * t, continuation byte j the six bits above 6 * (t - j). */
  function ByteOf(ch: CodeUnit, t: nat, j: nat): Byte
    requires t == ContinuationCount(ch) && j <= t
  {
    if j == 0 then Lead(LeadMarker(t), ShiftedBySix(ch, t))
    else Continuation(ShiftedBySix(ch, t - j))
  }

  /** Bytes j to t of that sequence. */
  function BytesFrom(ch: CodeUnit, t: nat, j: nat): seq<Byte>
    requires t == ContinuationCount(ch) && j <= t + 1
    decreases t + 1 - j
  {
    if j > t then [] else [ByteOf(ch, t, j)] + BytesFrom(ch, t, j + 1)
  }

  /** The bytes encode_utf8 writes for one code unit. */
  function EncodePoint(ch: CodeUnit): seq<Byte>
  {
    BytesFrom(ch, ContinuationCount(ch), 0)
  }

  /** The bytes encode_utf8 writes for a run of code units. */
  function Encode(src: seq<CodeUnit>): seq<Byte>
  {
    if src == [] then [] else Encode(src[..|src| - 1]) + EncodePoint(src[|src| - 1])
  }

  lemma {:induction false} BytesFromLength(ch: CodeUnit, t: nat, j: nat)
    requires t == ContinuationCount(ch) && j <= t + 1
    ensures |BytesFrom(ch, t, j)| == t + 1 - j
    decreases t + 1 - j
  {
    if j <= t {
      BytesFromLength(ch, t, j + 1);
    }
  }

  lemma {:induction false} BytesFromIndex(ch: CodeUnit, t: nat, j: nat, k: nat)
    requires t == ContinuationCount(ch) && j <= k <= t
    ensures |BytesFrom(ch, t, j)| == t + 1 - j
    ensures BytesFrom(ch, t, j)[k - j] == ByteOf(ch, t, k)
    decreases k - j
  {
    BytesFromLength(ch, t, j);
    if j < k {
      BytesFromIndex(ch, t, j + 1, k);
    }
  }

  /** A buffer holding byte k of the sequence at each k is the sequence. */
  lemma BytesFromAll(ch: CodeUnit, t: nat, s: seq<Byte>)
    requires t == ContinuationCount(ch) && |s| == t + 1
    requires forall k :: 0 <= k <= t ==> s[k] == ByteOf(ch, t, k)
    ensures s == BytesFrom(ch, t, 0)
  {
    BytesFromLength(ch, t, 0);
    forall k | 0 <= k <= t
      ensures s[k] == BytesFrom(ch, t, 0)[k]
    {
      BytesFromIndex(ch, t, 0, k);
    }
  }

  /** One to four bytes, by the range of the code point. */
  lemma EncodePointLength(ch: CodeUnit)
    ensures |EncodePoint(ch)| == ContinuationCount(ch) + 1
    ensures ch < 0x80 ==> |EncodePoint(ch)| == 1
    ensures 0x80 <= ch < 0x800 ==> |EncodePoint(ch)| == 2
    ensures 0x800 <= ch < 0x10000 ==> |EncodePoint(ch)| == 3
    ensures 0x10000 <= ch ==> |EncodePoint(ch)| == 4
  {
    BytesFromLength(ch, ContinuationCount(ch), 0);
  }

  /** The bytes of EncodePoint(ch) spelled out for each range of ch, as
      digits in base 64 under the lead markers. */
  lemma EncodePointBytes(ch: CodeUnit)
    ensures var r, c := EncodePoint(ch), ch as int;
      && (c < 0x80 ==> r == [c as Byte])
      && (0x80 <= c < 0x800 ==> r == [(0xC0 + c / 0x40) as Byte, (0x80 + c % 0x40) as Byte])
      && (0x800 <= c < 0x10000 ==>
            r == [(0xE0 + c / 0x1000) as Byte, (0x80 + c / 0x40 % 0x40) as Byte,
                  (0x80 + c % 0x40) as Byte])
      && (0x10000 <= c ==>
            r == [(0xF0 + c / 0x4_0000) as Byte, (0x80 + c / 0x1000 % 0x40) as Byte,
                  (0x80 + c / 0x40 % 0x40) as Byte, (0x80 + c % 0x40) as Byte])
  {
    var t := ContinuationCount(ch);
    BytesFromLength(ch, t, 0);
    BytesFromIndex(ch, t, 0, 0);
    if t >= 1 {
      BytesFromIndex(ch, t, 0, 1);
    }
    if t >= 2 {
      BytesFromIndex(ch, t, 0, 2);
    }
    if t >= 3 {
      BytesFromIndex(ch, t, 0, 3);
    }
  }

  /** The bit patterns of RFC 3629 section 3, read on the top bits of each
      byte: an ASCII byte 0xxxxxxx, or a lead byte 110xxxxx, 1110xxxx or
      11110xxx, followed by continuation bytes 10xxxxxx. */
  lemma EncodePointShape(ch: CodeUnit)
    ensures var r := EncodePoint(ch);
      && (|r| == 1 ==> r[0] < 0x80)
      && (|r| == 2 ==> r[0] / 0x20 == 0x6)
      && (|r| == 3 ==> r[0] / 0x10 == 0xE)
      && (|r| == 4 ==> r[0] / 0x8 == 0x1E)
      && (forall k :: 1 <= k < |r| ==> r[k] / 0x40 == 0x2)
  {
    EncodePointBytes(ch);
    EncodePointLength(ch);
  }

  /** The standard UTF-8 decoding of one 1- to 4-byte sequence: the payload
      bits of the lead byte followed by six bits of each continuation byte. */
  function DecodePoint(b: seq<Byte>): int
    requires 1 <= |b| <= 4
  {
    if |b| == 1 then b[0] as int
    else if |b| == 2 then (b[0] as int % 0x20) * 0x40 + b[1] as int % 0x40
    else if |b| == 3 then
      (b[0] as int % 0x10) * 0x1000 + (b[1] as int % 0x40) * 0x40 + b[2] as int % 0x40
    else
      (b[0] as int % 0x8) * 0x4_0000 + (b[1] as int % 0x40) * 0x1000
      + (b[2] as int % 0x40) * 0x40 + b[3] as int % 0x40
  }

  /** Decoding what encode_utf8 wrote gives back the code point. */
  lemma DecodeEncodePoint(ch: CodeUnit)
    ensures 1 <= |EncodePoint(ch)| <= 4 && DecodePoint(EncodePoint(ch)) == ch as int
  {
    EncodePointBytes(ch);
    var c := ch as int;
    if 0x80 <= c < 0x800 {
      DecodeTwo(c);
    } else if 0x800 <= c < 0x10000 {
      DecodeThree(c);
    } else if 0x10000 <= c {
      DecodeFour(c);
    }
  }

  lemma DecodeTwo(c: int)
    requires 0x80 <= c < 0x800
    ensures DecodePoint([(0xC0 + c / 0x40) as Byte, (0x80 + c % 0x40) as Byte]) == c
  {
  }

  lemma DecodeThree(c: int)
    requires 0x800 <= c < 0x10000
    ensures DecodePoint([(0xE0 + c / 0x1000) as Byte, (0x80 + c / 0x40 % 0x40) as Byte,
                         (0x80 + c % 0x40) as Byte]) == c
  {
    var q := c / 0x40;
    var p := q / 0x40;
    assert c / 0x1000 == p;
    assert (0xE0 + p) % 0x10 == p;
    assert c == p * 0x1000 + q % 0x40 * 0x40 + c % 0x40;
  }

  lemma DecodeFour(c: int)
    requires 0x10000 <= c < 0x11_0000
    ensures DecodePoint([(0xF0 + c / 0x4_0000) as Byte, (0x80 + c / 0x1000 % 0x40) as Byte,
                         (0x80 + c / 0x40 % 0x40) as Byte, (0x80 + c % 0x40) as Byte]) == c
  {
    var q := c / 0x40;
    var p := q / 0x40;
    var h := p / 0x40;
    assert c / 0x1000 == p && c / 0x4_0000 == h;
    assert (0xF0 + h) % 0x8 == h;
    assert c == h * 0x4_0000 + p % 0x40 * 0x1000 + q % 0x40 * 0x40 + c % 0x40;
  }

  /** The assertion closing encode_utf8: at most four bytes per code unit. */
  lemma {:induction false} EncodeBound(src: seq<CodeUnit>)
    ensures |Encode(src)| <= 4 * |src|
  {
    if src != [] {
      EncodeBound(src[..|src| - 1]);
      EncodePointLength(src[|src| - 1]);
    }
  }

  lemma EncodeSnoc(src: seq<CodeUnit>, i: nat)
    requires i < |src|
    ensures Encode(src[..i + 1]) == Encode(src[..i]) + EncodePoint(src[i])
  {
    assert src[..i + 1][..i] == src[..i];
  }

  /** A prefix of the input never encodes to more than the whole. */
  lemma {:induction false} PrefixEncodeBound(src: seq<CodeUnit>, i: nat)
    requires i <= |src|
    ensures |Encode(src[..i])| <= |Encode(src)|
    decreases |src| - i
  {
    if i < |src| {
      EncodeSnoc(src, i);
      PrefixEncodeBound(src, i + 1);
    } else {
      assert src[..i] == src;
    }
  }

  /** The room encode_utf8 needs for round i lies inside the whole encoding. */
  lemma EncodeRoom(src: seq<CodeUnit>, i: nat)
    requires i < |src|
    ensures |Encode(src[..i])| + |EncodePoint(src[i])| <= |Encode(src)|
  {
    EncodeSnoc(src, i);
    PrefixEncodeBound(src, i + 1);
  }

  /** now is orig with the bytes enc written from offset at, and nothing else changed. */
  ghost predicate Written<T>(now: seq<T>, orig: seq<T>, at: nat, enc: seq<T>)
  {
    && |now| == |orig| && at + |enc| <= |now|
    && now[..at] == orig[..at]
    && now[at..at + |enc|] == enc
    && now[at + |enc|..] == orig[at + |enc|..]
  }

  /** After the write, the buffer up to its end is orig's prefix and enc. */
  lemma WrittenPrefix<T>(now: seq<T>, orig: seq<T>, at: nat, enc: seq<T>)
    requires Written(now, orig, at, enc)
    ensures now[..at + |enc|] == orig[..at] + enc
  {
    assert now[..at + |enc|] == now[..at] + now[at..at + |enc|];
  }

  /** A buffer that differs from orig only in [at, at + n) is orig with its
      own bytes there written. */
  lemma WrittenHere<T>(now: seq<T>, orig: seq<T>, at: nat, n: nat)
    requires |now| == |orig| && at + n <= |now|
    requires forall k :: 0 <= k < at || at + n <= k < |now| ==> now[k] == orig[k]
    ensures Written(now, orig, at, now[at..at + n])
  {
    assert now[..at] == orig[..at];
    assert now[at + n..] == orig[at + n..];
  }

  /** Two writes side by side are one write of both. */
  lemma WrittenTwice<T>(before: seq<T>, after: seq<T>, orig: seq<T>, at: nat, e1: seq<T>, e2: seq<T>)
    requires Written(before, orig, at, e1)
    requires Written(after, before, at + |e1|, e2)
    ensures Written(after, orig, at, e1 + e2)
  {
    var r, w := |e1|, |e2|;
    assert after[..at] == after[..at + r][..at];
    assert after[at..at + r] == after[..at + r][at..];
    assert after[at..at + r + w] == after[at..at + r] + after[at + r..at + r + w];
    assert after[at + r + w..] == before[at + r..][w..];
  }

  /** One round of encode_utf8's loop: writing the encoding of src[i] right
      after that of src[..i] leaves the encoding of src[..i + 1]. */
  lemma EncodeStep(before: seq<Byte>, after: seq<Byte>, orig: seq<Byte>, at: nat,
                   src: seq<CodeUnit>, i: nat, r: nat)
    requires i < |src| && r == |Encode(src[..i])|
    requires Written(before, orig, at, Encode(src[..i]))
    requires Written(after, before, at + r, EncodePoint(src[i]))
    ensures Written(after, orig, at, Encode(src[..i + 1]))
    ensures |Encode(src[..i + 1])| == |Encode(src[..i])| + |EncodePoint(src[i])|
  {
    EncodeSnoc(src, i);
    WrittenTwice(before, after, orig, at, Encode(src[..i]), EncodePoint(src[i]));
  }

  /** The body of encode_utf8's loop (json.c:199-213) for one code unit ch:
      writes EncodePoint(ch) at dst[at..] and touches nothing else.  The
      shifts by 6 * t and 6 * (t - j) are written as ShiftedBySix. */
  method EncodePointInto(dst: array<Byte>, at: nat, ch: CodeUnit) returns (n: nat)
    requires at + |EncodePoint(ch)| <= dst.Length
    modifies dst
    ensures n == |EncodePoint(ch)|
    ensures Written(dst[..], old(dst[..]), at, EncodePoint(ch))
  {
    EncodePointLength(ch);
    var bm: nat, t: nat := 0, 0;
    if ch >= 0x10000 {
      t, bm := 3, 0xF0;
    } else if ch >= 0x800 {
      t, bm := 2, 0xE0;
    } else if ch >= 0x80 {
      t, bm := 1, 0xC0;
    }
    assert t == ContinuationCount(ch) && bm == LeadMarker(t);
    dst[at] := Lead(bm, ShiftedBySix(ch, t));
    var j := 1;
    while j <= t
      invariant 1 <= j <= t + 1
      invariant forall k :: 0 <= k < j ==> dst[at + k] == ByteOf(ch, t, k)
      invariant forall k :: 0 <= k < at || at + j <= k < dst.Length ==> dst[k] == old(dst[k])
    {
      dst[at + j] := Continuation(ShiftedBySix(ch, t - j));
      j := j + 1;
    }
    n := t + 1;
    BytesFromAll(ch, t, dst[at..at + n]);
    WrittenHere(dst[..], old(dst[..]), at, n);
  }

  /** encode_utf8 (json.c:193-217): writes the encoding of src into dst from
      offset at, touching nothing else, and returns the number of bytes. */
  method EncodeUtf8(dst: array<Byte>, at: nat, src: seq<CodeUnit>) returns (n: nat)
    requires at + |Encode(src)| <= dst.Length
    modifies dst
    ensures n == |Encode(src)|
    ensures Written(dst[..], old(dst[..]), at, Encode(src))
  {
    var i, ret := 0, 0;
    while i < |src|
      invariant 0 <= i <= |src| && ret == |Encode(src[..i])|
      invariant Written(dst[..], old(dst[..]), at, Encode(src[..i]))
    {
      var m := EncodeNext(dst, at, src, i, ret, old(dst[..]));
      ret := ret + m;
      i := i + 1;
    }
    assert src[..i] == src;
    n := ret;
  }

  /** Round i of encode_utf8's loop: with the encoding of src[..i] already
      at dst[at..], writes that of src[i] after it. */
  method EncodeNext(dst: array<Byte>, at: nat, src: seq<CodeUnit>, i: nat, ret: nat,
                    ghost orig: seq<Byte>) returns (m: nat)
    requires i < |src| && ret == |Encode(src[..i])| && at + |Encode(src)| <= dst.Length
    requires Written(dst[..], orig, at, Encode(src[..i]))
    modifies dst
    ensures ret + m == |Encode(src[..i + 1])|
    ensures Written(dst[..], orig, at, Encode(src[..i + 1]))
  {
    EncodeRoom(src, i);
    ghost var before := dst[..];
    m := EncodePointInto(dst, at + ret, src[i]);
    EncodeStep(before, dst[..], orig, at, src, i, ret);
  }
}
