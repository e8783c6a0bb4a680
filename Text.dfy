/** The two string operations the controller relies on: JavaScript's
    `String.prototype.trim`, and the decimal rendering of an integer that a
    template literal such as `${todo.id}` performs. */
module Text {

  /** The characters `trim` removes: the WhiteSpace and LineTerminator code
      points of ECMA-262 (tab, vertical tab, form feed, the byte order mark,
      the Unicode space separators, line feed, carriage return, and the line
      and paragraph separators). */
  predicate IsWhitespace(c: char) {
    || c == '\t' || c == '\n' || c == '\U{000B}' || c == '\U{000C}' || c == '\r'
    || c == ' ' || c == '\U{00A0}' || c == '\U{1680}'
    || ('\U{2000}' <= c <= '\U{200A}')
    || c == '\U{2028}' || c == '\U{2029}' || c == '\U{202F}' || c == '\U{205F}'
    || c == '\U{3000}' || c == '\U{FEFF}'
  }

  /** `s` without its leading whitespace. */
  function TrimStart(s: string): (r: string)
    ensures |r| <= |s| && r == s[|s| - |r|..]
    ensures forall i :: 0 <= i < |s| - |r| ==> IsWhitespace(s[i])
    ensures r != [] ==> !IsWhitespace(r[0])
    decreases |s|
  {
    if s != [] && IsWhitespace(s[0]) then TrimStart(s[1..]) else s
  }

  /** `s` without its trailing whitespace. */
  function TrimEnd(s: string): (r: string)
    ensures |r| <= |s| && r == s[..|r|]
    ensures forall i :: |r| <= i < |s| ==> IsWhitespace(s[i])
    ensures r != [] ==> !IsWhitespace(r[|r| - 1])
    decreases |s|
  {
    if s != [] && IsWhitespace(s[|s| - 1]) then TrimEnd(s[..|s| - 1]) else s
  }

  /** Where the trimmed text starts in `s`. */
  function TrimOffset(s: string): (k: nat)
    ensures k <= |s|
  {
    |s| - |TrimStart(s)|
  }

  /** `String.prototype.trim`. */
  function Trim(s: string): string {
    TrimEnd(TrimStart(s))
  }

  /** The trim is the slice of `s` left once the whitespace prefix and the
      whitespace suffix are cut off; it neither starts nor ends with
      whitespace. */
  lemma TrimSpec(s: string)
    ensures var r := Trim(s);
            && TrimOffset(s) + |r| <= |s| && r == s[TrimOffset(s)..TrimOffset(s) + |r|]
            && (forall i :: 0 <= i < TrimOffset(s) ==> IsWhitespace(s[i]))
            && (forall i :: TrimOffset(s) + |r| <= i < |s| ==> IsWhitespace(s[i]))
            && (r != [] ==> !IsWhitespace(r[0]) && !IsWhitespace(r[|r| - 1]))
  {
    TrimSlice(s);
    TrimSuffix(s);
    TrimEnds(s);
  }

  lemma TrimSlice(s: string)
    ensures TrimOffset(s) + |Trim(s)| <= |s| && Trim(s) == s[TrimOffset(s)..TrimOffset(s) + |Trim(s)|]
  {
    SliceOfSuffix(s, TrimOffset(s), TrimStart(s), Trim(s));
  }

  lemma TrimSuffix(s: string)
    ensures forall i :: TrimOffset(s) + |Trim(s)| <= i < |s| ==> IsWhitespace(s[i])
  {
    WhitespaceOfSuffix(s, TrimOffset(s), TrimStart(s), |Trim(s)|);
  }

  /** A prefix `r` of the suffix `t` of `s` that starts at `o` is a slice of `s`. */
  lemma SliceOfSuffix(s: string, o: nat, t: string, r: string)
    requires o <= |s| && t == s[o..] && |r| <= |t| && r == t[..|r|]
    ensures o + |r| <= |s| && r == s[o..o + |r|]
  {
    assert s[o..][..|r|] == s[o..o + |r|];
  }

  /** Whitespace at the end of the suffix `t` of `s` that starts at `o` is
      whitespace at the end of `s`. */
  lemma WhitespaceOfSuffix(s: string, o: nat, t: string, m: nat)
    requires o <= |s| && t == s[o..] && m <= |t|
    requires forall k :: m <= k < |t| ==> IsWhitespace(t[k])
    ensures forall i :: o + m <= i < |s| ==> IsWhitespace(s[i])
  {
    forall i | o + m <= i < |s| ensures IsWhitespace(s[i]) {
      assert s[i] == t[i - o];
    }
  }

  lemma TrimEnds(s: string)
    ensures Trim(s) != [] ==> !IsWhitespace(Trim(s)[0]) && !IsWhitespace(Trim(s)[|Trim(s)| - 1])
  {
    var t := TrimStart(s);
    if Trim(s) != [] {
      assert Trim(s)[0] == t[0];
    }
  }

  /** Trimming an already trimmed string changes nothing. */
  lemma TrimIdempotent(s: string)
    ensures Trim(Trim(s)) == Trim(s)
  {
    TrimEnds(s);
    TrimOfTrimmed(Trim(s));
  }

  /** The trim is empty exactly when every character is whitespace. */
  lemma TrimEmptyIff(s: string)
    ensures Trim(s) == [] <==> forall i :: 0 <= i < |s| ==> IsWhitespace(s[i])
  {
    var t, o := TrimStart(s), TrimOffset(s);
    if t != [] {
      assert s[o] == t[0];
      if Trim(s) != [] {
        assert Trim(s)[0] == t[0];
      }
    }
  }

  /** Text without whitespace at either end is its own trim. */
  lemma TrimOfTrimmed(s: string)
    requires s != [] ==> !IsWhitespace(s[0]) && !IsWhitespace(s[|s| - 1])
    ensures Trim(s) == s
  {
    if s != [] {
      assert TrimStart(s) == s;
      assert TrimEnd(s) == s;
    }
  }

  /** Leading whitespace does not reach past the trim's start. */
  lemma {:induction false} TrimStartSkipsPrefix(w: string, x: string)
    requires forall i :: 0 <= i < |w| ==> IsWhitespace(w[i])
    ensures TrimStart(w + x) == TrimStart(x)
    decreases |w|
  {
    if w == [] {
      assert w + x == x;
    } else {
      assert (w + x)[0] == w[0];
      assert (w + x)[1..] == w[1..] + x;
      TrimStartSkipsPrefix(w[1..], x);
    }
  }

  /** Trailing whitespace does not reach past the trim's end. */
  lemma {:induction false} TrimEndSkipsSuffix(x: string, w: string)
    requires forall i :: 0 <= i < |w| ==> IsWhitespace(w[i])
    ensures TrimEnd(x + w) == TrimEnd(x)
    decreases |w|
  {
    if w == [] {
      assert x + w == x;
    } else {
      assert (x + w)[|x + w| - 1] == w[|w| - 1];
      assert (x + w)[..|x + w| - 1] == x + w[..|w| - 1];
      TrimEndSkipsSuffix(x, w[..|w| - 1]);
    }
  }

  /** A text with no whitespace at its ends, padded on both sides with
      whitespace, trims back to itself. */
  lemma TrimPadded(before: string, t: string, after: string)
    requires t != [] && !IsWhitespace(t[0]) && !IsWhitespace(t[|t| - 1])
    requires forall i :: 0 <= i < |before| ==> IsWhitespace(before[i])
    requires forall i :: 0 <= i < |after| ==> IsWhitespace(after[i])
    ensures Trim(before + t + after) == t
  {
    assert before + t + after == before + (t + after);
    TrimStartSkipsPrefix(before, t + after);
    assert (t + after)[0] == t[0];
    assert TrimStart(t + after) == t + after;
    TrimEndSkipsSuffix(t, after);
    assert TrimEnd(t) == t;
  }

  /** The title typed with spaces around it is sent without them. */
  lemma TrimExample()
    ensures Trim("  buy milk  ") == "buy milk"
  {
    var t := "buy milk";
    assert "  buy milk  " == "  " + t + "  ";
    TrimPadded("  ", t, "  ");
  }

  function DigitChar(d: int): (c: char)
    requires 0 <= d < 10
    ensures '0' <= c <= '9'
  {
    (48 + d) as char
  }

  function DigitValue(c: char): int {
    c as int - 48
  }

  /** The decimal digits of `n`, most significant first, with no leading zero. */
  function NatToDecimal(n: nat): (s: string)
    ensures |s| > 0 && (|s| > 1 ==> s[0] != '0')
    ensures forall i :: 0 <= i < |s| ==> '0' <= s[i] <= '9'
    decreases n
  {
    if n < 10 then [DigitChar(n)] else NatToDecimal(n / 10) + [DigitChar(n % 10)]
  }

  /** How JavaScript renders an integral number in a template literal. */
  function DecimalString(n: int): (s: string)
    ensures |s| > 0
  {
    if n < 0 then "-" + NatToDecimal(-n) else NatToDecimal(n)
  }

  function ParseNat(s: string): int
    decreases |s|
  {
    if s == [] then 0 else 10 * ParseNat(s[..|s| - 1]) + DigitValue(s[|s| - 1])
  }

  /** Reads back a rendering made by DecimalString. */
  function ParseDecimal(s: string): int {
    if s != [] && s[0] == '-' then -ParseNat(s[1..]) else ParseNat(s)
  }

  lemma {:induction false} NatToDecimalRoundTrip(n: nat)
    ensures ParseNat(NatToDecimal(n)) == n
    decreases n
  {
    if n >= 10 {
      NatToDecimalRoundTrip(n / 10);
      var s := NatToDecimal(n);
      assert s[..|s| - 1] == NatToDecimal(n / 10);
    }
  }

  /** The rendering loses nothing: the integer can be read back from it. */
  lemma DecimalRoundTrip(n: int)
    ensures ParseDecimal(DecimalString(n)) == n
  {
    if n < 0 {
      NatToDecimalRoundTrip(-n);
      assert ("-" + NatToDecimal(-n))[1..] == NatToDecimal(-n);
    } else {
      NatToDecimalRoundTrip(n);
    }
  }

  /** Different integers render differently. */
  lemma DecimalInjective(a: int, b: int)
    requires DecimalString(a) == DecimalString(b)
    ensures a == b
  {
    DecimalRoundTrip(a);
    DecimalRoundTrip(b);
  }
}
