/** The grammar parse_number checks (json.c:371-403) against the number
    grammar of section 6 of RFC 8259: what the scanner accepts is a
    number once the white space it lets through is dropped, a number
    written out is accepted whole, and a 0 ends the integer part. */
module NumberLaws {
  import opened Ascii
  import opened JsonTypes
  import opened Grammar

  // ---------------------------------------------------------------------
  // The grammar of section 6 of RFC 8259, on a text without white space

  predicate AllDigits(t: string)
  {
    forall k :: 0 <= k < |t| ==> IsDigit(t[k])
  }

  /** int = zero / ( digit1-9 *DIGIT ) */
  predicate IntText(t: string)
  {
    t == "0" || (|t| > 0 && '1' <= t[0] <= '9' && AllDigits(t[1..]))
  }

  /** [ frac ], frac = decimal-point 1*DIGIT */
  predicate FracText(t: string)
  {
    t == [] || (|t| > 1 && t[0] == '.' && AllDigits(t[1..]))
  }

  /** What follows the e of an exponent: [ minus / plus ] 1*DIGIT */
  predicate ExpDigits(t: string)
  {
    if |t| > 0 && (t[0] == '+' || t[0] == '-') then |t| > 1 && AllDigits(t[1..])
    else |t| > 0 && AllDigits(t)
  }

  /** [ exp ], exp = e [ minus / plus ] 1*DIGIT, with e either case */
  predicate ExpText(t: string)
  {
    t == [] || (|t| > 1 && (t[0] == 'e' || t[0] == 'E') && ExpDigits(t[1..]))
  }

  /** number = [ minus ] int [ frac ] [ exp ], with the parts ending at a,
      b and c. */
  predicate NumberParts(t: string, a: nat, b: nat, c: nat)
  {
    && a <= b <= c <= |t|
    && (t[..a] == [] || t[..a] == "-")
    && IntText(t[a..b]) && FracText(t[b..c]) && ExpText(t[c..])
  }

  ghost predicate NumberText(t: string)
  {
    exists a: nat, b: nat, c: nat :: NumberParts(t, a, b, c)
  }

  // ---------------------------------------------------------------------
  // What the scanner accepts is a number

  /** The bytes of s[i..n] that are not white space. */
  function Squeeze(s: seq<char>, i: nat, n: nat): (t: seq<char>)
    requires i <= n <= |s|
    ensures |t| <= n - i
    decreases n - i
  {
    if i == n then [] else (if IsSpace(s[i]) then [] else [s[i]]) + Squeeze(s, i + 1, n)
  }

  lemma {:induction false} SqueezeSplit(s: seq<char>, i: nat, j: nat, n: nat)
    requires i <= j <= n <= |s|
    ensures Squeeze(s, i, n) == Squeeze(s, i, j) + Squeeze(s, j, n)
    decreases j - i
  {
    if i < j {
      SqueezeSplit(s, i + 1, j, n);
    }
  }

  /** skip_space drops only white space. */
  lemma {:induction false} SqueezeWs(s: seq<char>, k: nat)
    requires Buffer(s) && k < |s|
    ensures Squeeze(s, k, SkipWs(s, k)) == []
    decreases |s| - k
  {
    if IsSpace(s[k]) {
      SqueezeWs(s, k + 1);
    }
  }

  /** consume with skip_space on steps over one byte that is not white
      space, then over white space only. */
  lemma SqueezeAdvance(s: seq<char>, k: nat)
    requires Buffer(s) && k < |s| - 1 && !IsSpace(s[k])
    ensures Squeeze(s, k, Advance(s, k, true)) == [s[k]]
  {
    SqueezeWs(s, k + 1);
    assert Squeeze(s, k, SkipWs(s, k + 1)) == [s[k]] + Squeeze(s, k + 1, SkipWs(s, k + 1));
  }

  lemma {:induction false} DigitRunText(s: seq<char>, k: nat)
    requires Buffer(s) && k < |s|
    ensures AllDigits(Squeeze(s, k, DigitRun(s, k)))
    decreases |s| - k
  {
    NulIsLast(s, k);
    if IsDigit(s[k]) {
      var j := Advance(s, k, true);
      DigitRunText(s, j);
      SqueezeAdvance(s, k);
      SqueezeSplit(s, k, j, DigitRun(s, j));
    }
  }

  lemma DigitsText(s: seq<char>, k: nat)
    requires Buffer(s) && k < |s| && DigitsAt(s, k).Parsed?
    ensures var t := Squeeze(s, k, DigitsAt(s, k).next); |t| > 0 && AllDigits(t)
  {
    NulIsLast(s, k);
    var j := Advance(s, k, true);
    DigitRunText(s, j);
    SqueezeAdvance(s, k);
    SqueezeSplit(s, k, j, DigitRun(s, j));
  }

  lemma IntegerText(s: seq<char>, k: nat)
    requires Buffer(s) && k < |s| && IntegerAt(s, k).Parsed?
    ensures IntText(Squeeze(s, k, IntegerAt(s, k).next))
  {
    NulIsLast(s, k);
    SqueezeAdvance(s, k);
    if s[k] == '0' {
      assert [s[k]] == "0";
    } else {
      var j := Advance(s, k, true);
      DigitRunText(s, j);
      SqueezeSplit(s, k, j, DigitRun(s, j));
      var t := Squeeze(s, k, DigitRun(s, j));
      assert t == [s[k]] + Squeeze(s, j, DigitRun(s, j));
      assert t[1..] == Squeeze(s, j, DigitRun(s, j));
    }
  }

  lemma FractionText(s: seq<char>, k: nat)
    requires Buffer(s) && k < |s| && FractionAt(s, k).Parsed?
    ensures FracText(Squeeze(s, k, FractionAt(s, k).next))
  {
    if s[k] == '.' {
      NulIsLast(s, k);
      var j := Advance(s, k, true);
      var n := FractionAt(s, k).next;
      DigitsText(s, j);
      SqueezeAdvance(s, k);
      SqueezeSplit(s, k, j, n);
      var t := Squeeze(s, k, n);
      assert t == ['.'] + Squeeze(s, j, n);
      assert t[1..] == Squeeze(s, j, n);
    }
  }

  lemma ExponentText(s: seq<char>, k: nat)
    requires Buffer(s) && k < |s| && ExponentAt(s, k).Parsed?
    ensures ExpText(Squeeze(s, k, ExponentAt(s, k).next))
  {
    if ToLower(s[k]) == 'e' {
      NulIsLast(s, k);
      var j := Advance(s, k, true);
      var m := SignSkipped(s, j);
      var n := ExponentAt(s, k).next;
      DigitsText(s, m);
      SqueezeAdvance(s, k);
      SqueezeSplit(s, k, j, n);
      var t := Squeeze(s, k, n);
      assert t[1..] == Squeeze(s, j, n);
      if m != j {
        NulIsLast(s, j);
        SqueezeAdvance(s, j);
        SqueezeSplit(s, j, m, n);
        assert t[1..][1..] == Squeeze(s, m, n);
      }
    }
  }

  /** Whatever parse_number's scanner accepts is, once the white space it
      lets through between the parts is dropped, a number as section 6 of
      RFC 8259 defines it. */
  lemma NumberSound(s: seq<char>, i: nat)
    requires Buffer(s) && i < |s| && NumberScanAt(s, i).Parsed?
    ensures NumberText(Squeeze(s, i, NumberScanAt(s, i).next))
  {
    NulIsLast(s, i);
    var j := if s[i] == '-' then Advance(s, i, true) else i;
    var a := IntegerAt(s, j).next;
    var b := FractionAt(s, a).next;
    var n := ExponentAt(s, b).next;
    if s[i] == '-' {
      SqueezeAdvance(s, i);
    }
    IntegerText(s, j);
    FractionText(s, a);
    ExponentText(s, b);
    SqueezeSplit(s, i, j, n);
    SqueezeSplit(s, j, a, n);
    SqueezeSplit(s, a, b, n);
    Joined(Squeeze(s, i, j), Squeeze(s, j, a), Squeeze(s, a, b), Squeeze(s, b, n));
  }

  /** A sign, an integer part, a fraction and an exponent in a row make a
      number. */
  lemma Joined(A: string, B: string, C: string, D: string)
    requires (A == [] || A == "-") && IntText(B) && FracText(C) && ExpText(D)
    ensures NumberText(A + (B + (C + D)))
  {
    var t := A + (B + (C + D));
    Slices(A, B, C, D);
    assert NumberParts(t, |A|, |A| + |B|, |A| + |B| + |C|);
  }

  /** The four pieces of A + (B + (C + D)) are its slices. */
  lemma Slices(A: string, B: string, C: string, D: string)
    ensures var t := A + (B + (C + D));
            var a, b, c := |A|, |A| + |B|, |A| + |B| + |C|;
            t[..a] == A && t[a..b] == B && t[b..c] == C && t[c..] == D
  {
    var CD := C + D;
    var BCD := B + CD;
    var t := A + BCD;
    var a, b, c := |A|, |A| + |B|, |A| + |B| + |C|;
    assert t[a..] == BCD;
    assert t[a..b] == BCD[..|B|];
    assert t[b..] == CD;
    assert t[b..c] == CD[..|C|];
  }

  // ---------------------------------------------------------------------
  // A number written out is accepted whole

  /** A byte that cannot continue a number: no digit, no decimal point and
      no e. */
  predicate Stops(c: char)
  {
    !IsDigit(c) && c != '.' && c != 'e' && c != 'E'
  }

  /** The text t without white space written at i in the buffer, with
      nothing but white space and then a byte that stops a number after
      it. */
  ghost predicate Laid(s: seq<char>, i: nat, t: string)
  {
    && Buffer(s) && i + |t| < |s| && s[i..i + |t|] == t
    && (forall k :: 0 <= k < |t| ==> !IsSpace(t[k]))
    && Stops(s[SkipWs(s, i + |t|)])
  }

  /** Where the scanner stands before byte p of t: at it, or past the
      white space after t once p is |t|. */
  function Spot(s: seq<char>, i: nat, t: string, p: nat): (k: nat)
    requires Laid(s, i, t) && p <= |t|
    ensures k < |s|
    ensures p < |t| ==> k == i + p && s[k] == t[p]
  {
    if p < |t| then i + p else SkipWs(s, i + |t|)
  }

  lemma SpotAdvance(s: seq<char>, i: nat, t: string, p: nat)
    requires Laid(s, i, t) && p < |t|
    ensures i + p < |s| - 1 && Advance(s, i + p, true) == Spot(s, i, t, p + 1)
  {
    if p + 1 < |t| {
      assert s[i + p + 1] == t[p + 1];
    }
  }

  lemma {:induction false} DigitRunSpot(s: seq<char>, i: nat, t: string, p: nat, q: nat)
    requires Laid(s, i, t) && p <= q <= |t|
    requires forall k :: p <= k < q ==> IsDigit(t[k])
    requires q < |t| ==> !IsDigit(t[q])
    ensures DigitRun(s, Spot(s, i, t, p)) == Spot(s, i, t, q)
    decreases q - p
  {
    if p < q {
      SpotAdvance(s, i, t, p);
      DigitRunSpot(s, i, t, p + 1, q);
    }
  }

  lemma IntegerSpot(s: seq<char>, i: nat, t: string, a: nat, b: nat)
    requires Laid(s, i, t) && a <= b <= |t| && IntText(t[a..b])
    requires b < |t| ==> !IsDigit(t[b])
    ensures IntegerAt(s, Spot(s, i, t, a)) == Parsed((), Spot(s, i, t, b))
  {
    assert t[a] == t[a..b][0];
    SpotAdvance(s, i, t, a);
    if t[a] != '0' {
      assert forall k :: a + 1 <= k < b ==> t[k] == t[a..b][1..][k - a - 1];
      DigitRunSpot(s, i, t, a + 1, b);
    }
  }

  lemma FractionSpot(s: seq<char>, i: nat, t: string, b: nat, c: nat)
    requires Laid(s, i, t) && b <= c <= |t| && FracText(t[b..c])
    requires c < |t| ==> t[c] == 'e' || t[c] == 'E'
    ensures FractionAt(s, Spot(s, i, t, b)) == Parsed((), Spot(s, i, t, c))
  {
    if b < c {
      assert t[b] == t[b..c][0] && t[b + 1] == t[b..c][1];
      assert forall k :: b + 1 <= k < c ==> t[k] == t[b..c][1..][k - b - 1];
      SpotAdvance(s, i, t, b);
      SpotAdvance(s, i, t, b + 1);
      DigitRunSpot(s, i, t, b + 2, c);
    }
  }

  lemma ExponentSpot(s: seq<char>, i: nat, t: string, c: nat)
    requires Laid(s, i, t) && c <= |t| && ExpText(t[c..])
    ensures ExponentAt(s, Spot(s, i, t, c)) == Parsed((), Spot(s, i, t, |t|))
  {
    if c < |t| {
      var e := t[c..];
      assert t[c] == e[0] && t[c + 1] == e[1];
      SpotAdvance(s, i, t, c);
      var d := if t[c + 1] == '+' || t[c + 1] == '-' then c + 2 else c + 1;
      if d == c + 2 {
        SpotAdvance(s, i, t, c + 1);
      }
      assert SignSkipped(s, Spot(s, i, t, c + 1)) == Spot(s, i, t, d);
      assert forall k :: d <= k < |t| ==> t[k] == e[1..][k - c - 1];
      SpotAdvance(s, i, t, d);
      DigitRunSpot(s, i, t, d + 1, |t|);
    }
  }

  /** Every byte of a number is a sign, a digit, a decimal point or an e. */
  lemma NumberBytes(t: string, a: nat, b: nat, c: nat)
    requires NumberParts(t, a, b, c)
    ensures forall k :: 0 <= k < |t| ==> !IsSpace(t[k])
  {
    forall k | 0 <= k < |t|
      ensures !IsSpace(t[k])
    {
      if k < a {
        assert t[k] == t[..a][k];
      } else if k < b {
        assert t[k] == t[a..b][k - a];
        if k > a {
          assert t[k] == t[a..b][1..][k - a - 1];
        }
      } else if k < c {
        assert t[k] == t[b..c][k - b];
        if k > b {
          assert t[k] == t[b..c][1..][k - b - 1];
        }
      } else {
        var e := t[c..];
        assert t[k] == e[k - c];
        if k > c + 1 {
          assert t[k] == e[1..][1..][k - c - 2];
        }
      }
    }
  }

  /** A number written out without white space inside it, before a byte
      that cannot continue it (white space between them allowed), is
      accepted whole, and the cursor stops at that byte. */
  lemma NumberComplete(s: seq<char>, i: nat, t: string, a: nat, b: nat, c: nat)
    requires Buffer(s) && i + |t| < |s| && s[i..i + |t|] == t && NumberParts(t, a, b, c)
    requires Stops(s[SkipWs(s, i + |t|)])
    ensures NumberScanAt(s, i) == Parsed((), SkipWs(s, i + |t|))
  {
    NumberBytes(t, a, b, c);
    assert Laid(s, i, t);
    assert t[a] == t[a..b][0];
    if a == 1 {
      assert t[0] == t[..a][0];
      SpotAdvance(s, i, t, 0);
    }
    assert b < |t| ==> t[b] == (if b < c then t[b..c][0] else t[c..][0]);
    assert c < |t| ==> t[c] == t[c..][0];
    IntegerSpot(s, i, t, a, b);
    FractionSpot(s, i, t, b, c);
    ExponentSpot(s, i, t, c);
  }

  // ---------------------------------------------------------------------
  // A 0 ends the integer part

  /** A 0 that starts the integer part is all of it: a digit after it is
      left for the caller (where json_parse's expect then fails). */
  lemma ZeroStops(s: seq<char>, i: nat)
    requires Buffer(s) && i < |s| && s[i] == '0'
    requires IsDigit(s[SkipWs(s, i + 1)])
    ensures NumberScanAt(s, i) == Parsed((), SkipWs(s, i + 1))
  {
    NulIsLast(s, i);
  }
}
