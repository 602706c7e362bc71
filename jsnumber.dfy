/** The two number/text conversions `matchesQuery` uses: whether `Number(s)`
    is a number (not NaN), following the StringNumericLiteral grammar of
    section 7.1.4.1 of ECMA-262, and `price.toString()` for a price held in
    integer cents. */
module JsNumber {
  import opened Text

  predicate IsSign(c: char) {
    c == '+' || c == '-'
  }

  predicate NonEmptyDigits(s: string) {
    |s| > 0 && AllDigits(s)
  }

  /** Index of the first `c` in `s`, or `|s|` when there is none. */
  function IndexOf(s: string, c: char): (k: nat)
    ensures k <= |s|
    ensures k < |s| ==> s[k] == c
    ensures forall i :: 0 <= i < k ==> s[i] != c
  {
    if s == [] then 0 else if s[0] == c then 0 else 1 + IndexOf(s[1..], c)
  }

  /** Index of the first exponent marker `e` or `E`, or `|s|`. */
  function ExponentStart(s: string): (k: nat)
    ensures k <= |s|
    ensures k < |s| ==> s[k] == 'e' || s[k] == 'E'
    ensures forall i :: 0 <= i < k ==> s[i] != 'e' && s[i] != 'E'
  {
    if s == [] then 0 else if s[0] == 'e' || s[0] == 'E' then 0 else 1 + ExponentStart(s[1..])
  }

  /** ExponentPart: `e` or `E`, an optional sign, then decimal digits. */
  predicate IsExponentPart(s: string) {
    |s| >= 2 && (s[0] == 'e' || s[0] == 'E') &&
    if IsSign(s[1]) then NonEmptyDigits(s[2..]) else NonEmptyDigits(s[1..])
  }

  /** The digits and point before the exponent: `12`, `12.`, `12.5` or `.5`. */
  predicate IsDecimalMantissa(m: string) {
    var d := IndexOf(m, '.');
    if d == |m| then NonEmptyDigits(m)
    else |m| >= 2 && AllDigits(m[..d]) && AllDigits(m[d + 1..])
  }

  /** StrUnsignedDecimalLiteral */
  predicate IsUnsignedDecimalLiteral(s: string) {
    s == "Infinity" ||
    var k := ExponentStart(s);
    IsDecimalMantissa(s[..k]) && (k == |s| || IsExponentPart(s[k..]))
  }

  /** StrDecimalLiteral: an unsigned literal with an optional sign. */
  predicate IsDecimalLiteral(s: string) {
    IsUnsignedDecimalLiteral(s) || (|s| >= 1 && IsSign(s[0]) && IsUnsignedDecimalLiteral(s[1..]))
  }

  predicate AllIn(s: string, alphabet: string) {
    forall i :: 0 <= i < |s| ==> s[i] in alphabet
  }

  /** NonDecimalIntegerLiteral: `0b…`, `0o…` or `0x…`, in either case. */
  predicate IsNonDecimalIntegerLiteral(s: string) {
    |s| >= 3 && s[0] == '0' &&
    (((s[1] == 'b' || s[1] == 'B') && AllIn(s[2..], "01")) ||
     ((s[1] == 'o' || s[1] == 'O') && AllIn(s[2..], "01234567")) ||
     ((s[1] == 'x' || s[1] == 'X') && AllIn(s[2..], "0123456789abcdefABCDEF")))
  }

  /** `!Number.isNaN(Number(s))`: after trimming, `s` is empty or a numeric
      literal. */
  predicate IsNumeric(s: string) {
    var t := Trim(s);
    t == [] || IsDecimalLiteral(t) || IsNonDecimalIntegerLiteral(t)
  }

  /** The two decimals of a price as `toString` writes them: none for a whole
      amount, one when the second is zero. */
  function FractionText(f: nat): (r: string)
    requires f < 100
    ensures |r| <= 3
    ensures r != [] ==> r[0] == '.' && r[|r| - 1] != '0' && AllDigits(r[1..])
  {
    if f == 0 then ""
    else if f % 10 == 0 then ['.', DigitChar(f / 10)]
    else ['.', DigitChar(f / 10), DigitChar(f % 10)]
  }

  /** `price.toString()` for a price of `cents` hundredths: the shortest
      decimal spelling, with no trailing zero after the point. */
  function PriceString(cents: nat): string {
    NatToString(cents / 100) + FractionText(cents % 100)
  }

  /** Digits, and at most one point. */
  predicate DecimalShaped(s: string) {
    (forall i :: 0 <= i < |s| ==> IsDigit(s[i]) || s[i] == '.') &&
    (forall i, j :: 0 <= i < |s| && 0 <= j < |s| && s[i] == '.' && s[j] == '.' ==> i == j)
  }

  /** The amount in cents that a `toString` spelling of a price denotes. */
  function CentsOf(s: string): nat
    requires DecimalShaped(s)
  {
    var d := IndexOf(s, '.');
    var whole := s[..d];
    var frac := if d < |s| then s[d + 1..] else "";
    assert AllDigits(whole) && AllDigits(frac) by {
      assert forall i :: 0 <= i < |frac| ==> frac[i] == s[d + 1 + i];
    }
    DigitsValue(whole) * 100 + FractionCents(frac)
  }

  /** The cents the digits after the point denote (the first two count). */
  function FractionCents(frac: string): nat
    requires AllDigits(frac)
  {
    if |frac| == 0 then 0
    else if |frac| == 1 then DigitsValue(frac) * 10
    else DigitsValue(frac[..2])
  }

  /** The digits `FractionText` writes denote the cents they came from. */
  lemma FractionTextRoundTrip(g: nat)
    requires g < 100
    ensures FractionText(g) == [] <==> g == 0
    ensures FractionText(g) != [] ==> FractionCents(FractionText(g)[1..]) == g
  {
    var f := FractionText(g);
    if g != 0 {
      if g % 10 == 0 {
        assert f[1..] == [DigitChar(g / 10)];
        assert DigitsValue(f[1..]) == DigitsValue([]) * 10 + g / 10;
      } else {
        assert f[1..][..2] == [DigitChar(g / 10), DigitChar(g % 10)];
        assert [DigitChar(g / 10), DigitChar(g % 10)][..1] == [DigitChar(g / 10)];
        assert DigitsValue([DigitChar(g / 10)]) == g / 10;
      }
    }
  }

  lemma PriceStringShape(cents: nat)
    ensures DecimalShaped(PriceString(cents))
    ensures IndexOf(PriceString(cents), '.') == |NatToString(cents / 100)|
  {
    var w, f := NatToString(cents / 100), FractionText(cents % 100);
    var s := PriceString(cents);
    assert forall i :: 0 <= i < |w| ==> s[i] == w[i];
    assert forall i :: |w| < i < |s| ==> s[i] == f[i - |w|] == f[1..][i - |w| - 1];
    assert forall i :: 0 <= i < |w| ==> s[i] != '.';
    if f == [] {
      assert s == w;
    } else {
      assert s[|w|] == '.';
    }
  }

  /** Reading the `toString` spelling back gives the price: the text the
      price filter searches denotes exactly the item's price. */
  lemma PriceStringRoundTrip(cents: nat)
    ensures DecimalShaped(PriceString(cents))
    ensures CentsOf(PriceString(cents)) == cents
  {
    PriceStringShape(cents);
    var w, f := NatToString(cents / 100), FractionText(cents % 100);
    var s := PriceString(cents);
    assert s[..|w|] == w;
    NatToStringRoundTrip(cents / 100);
    FractionTextRoundTrip(cents % 100);
    if f != [] {
      assert s[|w| + 1..] == f[1..];
    }
  }

  /** A piece of a decimal-shaped string is decimal-shaped. */
  lemma DecimalShapedPiece(s: string, sub: string, k: int)
    requires DecimalShaped(s) && OccursAt(s, sub, k)
    ensures DecimalShaped(sub)
  {
    assert forall i :: 0 <= i < |sub| ==> sub[i] == s[k + i];
  }

  /** A decimal-shaped string has none of the literal forms other than a
      plain mantissa: no sign, no prefix, no exponent, no `Infinity`. */
  lemma DecimalShapedIsMantissaOnly(s: string)
    requires s != [] && DecimalShaped(s)
    ensures IsNumeric(s) <==> IsDecimalMantissa(s)
  {
    TrimUntrimmed(s);
    DecimalShapedUnsigned(s);
    DecimalShapedNoPrefix(s);
  }

  lemma DecimalShapedUnsigned(s: string)
    requires s != [] && DecimalShaped(s)
    ensures IsDecimalLiteral(s) <==> IsDecimalMantissa(s)
  {
    assert ExponentStart(s) == |s|;
    assert s[..|s|] == s;
    assert s != "Infinity" by { assert "Infinity"[0] == 'I'; }
    assert !IsSign(s[0]);
  }

  lemma DecimalShapedNoPrefix(s: string)
    requires DecimalShaped(s)
    ensures !IsNonDecimalIntegerLiteral(s)
  {
    if |s| >= 2 { assert IsDigit(s[1]) || s[1] == '.'; }
  }

  /** A non-empty decimal-shaped string is a number for `Number` unless it is
      the lone point `"."`. */
  lemma DecimalShapedNumeric(s: string)
    requires s != [] && DecimalShaped(s)
    ensures IsNumeric(s) <==> s != "."
  {
    DecimalShapedIsMantissaOnly(s);
    DecimalShapedMantissa(s);
  }

  /** A non-empty decimal-shaped string is a mantissa unless it is `"."`. */
  lemma DecimalShapedMantissa(s: string)
    requires s != [] && DecimalShaped(s)
    ensures IsDecimalMantissa(s) <==> s != "."
  {
    var d := IndexOf(s, '.');
    if d < |s| {
      assert AllDigits(s[..d]);
      var t := s[d + 1..];
      assert forall i :: 0 <= i < |t| ==> t[i] == s[d + 1 + i];
      assert AllDigits(t);
      if |s| == 1 {
        assert s == ".";
      }
    } else {
      assert s != "." by { assert s[0] != '.'; }
    }
  }

  /** Which queries `Number` accepts among the pieces of a price's text:
      every non-empty piece except `"."`. */
  lemma PricePieceNumeric(cents: nat, query: string)
    requires query != [] && Includes(PriceString(cents), query)
    ensures IsNumeric(query) <==> query != "."
  {
    PriceStringShape(cents);
    var k :| 0 <= k <= |PriceString(cents)| - |query| && OccursAt(PriceString(cents), query, k);
    DecimalShapedPiece(PriceString(cents), query, k);
    DecimalShapedNumeric(query);
  }
}
