/**
 * The string syntax accepted by java.math.BigDecimal(String), which the
 * keypad screen uses to validate its buffer and the history screen to read
 * an added amount:
 *
 *   [sign] significand [exponent]
 *   sign        = '+' | '-'
 *   significand = digits ['.' [digits]] | '.' digits
 *   exponent    = ('e' | 'E') [sign] digits
 *
 * The value is sign * (all significand digits) with scale
 * (number of fraction digits) - exponent; the exponent and the scale must
 * both fit in a Java `int`, otherwise the constructor throws
 * NumberFormatException.
 *
 * Parsing is split into Lex (text to a Literal) and Evaluate (Literal to a
 * Decimal).  Render is the inverse of Lex: every accepted text is the
 * rendering of its Literal, and every well-formed Literal lexes back to
 * itself.
 */
module DecimalSyntax {
  import opened Wrappers
  import opened Decimals

  datatype Sign = Unsigned | Plus | Minus

  datatype ExponentPart = ExponentPart(marker: char, sign: Sign, digits: string)

  datatype Literal = Literal(
    sign: Sign,
    intDigits: string,
    point: bool,
    fracDigits: string,
    exponent: Option<ExponentPart>)

  predicate IsDigit(c: char) {
    '0' <= c <= '9'
  }

  predicate AllDigits(s: string) {
    forall i :: 0 <= i < |s| ==> IsDigit(s[i])
  }

  predicate IsExponentMarker(c: char) {
    c == 'e' || c == 'E'
  }

  /** The grammar's constraints on each part of a literal. */
  predicate WellFormed(lit: Literal) {
    && AllDigits(lit.intDigits)
    && AllDigits(lit.fracDigits)
    && |lit.intDigits| + |lit.fracDigits| > 0
    && (!lit.point ==> lit.fracDigits == [])
    && (lit.exponent.Some? ==>
          && IsExponentMarker(lit.exponent.value.marker)
          && AllDigits(lit.exponent.value.digits)
          && |lit.exponent.value.digits| > 0)
  }

  function SignText(s: Sign): string {
    match s
    case Unsigned => ""
    case Plus => "+"
    case Minus => "-"
  }

  function MantissaText(lit: Literal): string {
    lit.intDigits + (if lit.point then "." else "") + lit.fracDigits
  }

  function ExponentText(e: Option<ExponentPart>): string {
    match e
    case None => ""
    case Some(x) => [x.marker] + SignText(x.sign) + x.digits
  }

  /** The text of a literal. */
  function Render(lit: Literal): string {
    SignText(lit.sign) + MantissaText(lit) + ExponentText(lit.exponent)
  }

  /** An optional leading '+' or '-', and the rest of the text. */
  function SplitSign(s: string): (r: (Sign, string))
    ensures SignText(r.0) + r.1 == s
  {
    if |s| > 0 && s[0] == '+' then (Plus, s[1..])
    else if |s| > 0 && s[0] == '-' then (Minus, s[1..])
    else (Unsigned, s)
  }

  /** The position of the first character of s that is in `stops`, or |s|. */
  function IndexOfAny(s: string, stops: set<char>): (r: nat)
    ensures r <= |s|
    ensures forall i :: 0 <= i < r ==> s[i] !in stops
    ensures r < |s| ==> s[r] in stops
  {
    if s == [] then 0
    else if s[0] in stops then 0
    else 1 + IndexOfAny(s[1..], stops)
  }

  const ExponentMarkers: set<char> := {'e', 'E'}

  lemma SplitAt(s: string, k: nat)
    requires k <= |s|
    ensures s == s[..k] + s[k..]
    ensures k < |s| ==> s == s[..k] + [s[k]] + s[k + 1..]
  {
  }

  /** The significand: digits, an optional point, and fraction digits; None when malformed. */
  function LexMantissa(mantissa: string): (r: Option<Literal>)
    ensures r.Some? ==> WellFormed(r.value) && r.value.sign == Unsigned && r.value.exponent == None
    ensures r.Some? ==> MantissaText(r.value) == mantissa
  {
    var p := IndexOfAny(mantissa, {'.'});
    var intDigits := mantissa[..p];
    var point := p < |mantissa|;
    var fracDigits := if point then mantissa[p + 1..] else [];
    if AllDigits(intDigits) && AllDigits(fracDigits) && |intDigits| + |fracDigits| > 0 then
      assert mantissa == intDigits + (if point then "." else "") + fracDigits by {
        if point {
          SplitAt(mantissa, p);
        }
      }
      Some(Literal(Unsigned, intDigits, point, fracDigits, None))
    else
      None
  }

  /**
   * What follows the significand: nothing, or an exponent marker, an
   * optional sign and at least one digit.  Some(None) for the empty text,
   * None when malformed.
   */
  function LexExponent(text: string): (r: Option<Option<ExponentPart>>)
    requires text != [] ==> text[0] in ExponentMarkers
    ensures r.Some? ==> ExponentText(r.value) == text
    ensures r.Some? && r.value.Some? ==> var e := r.value.value;
      IsExponentMarker(e.marker) && AllDigits(e.digits) && |e.digits| > 0
  {
    if text == [] then Some(None)
    else
      var (sign, digits) := SplitSign(text[1..]);
      if |digits| > 0 && AllDigits(digits) then
        assert text == [text[0]] + text[1..];
        Some(Some(ExponentPart(text[0], sign, digits)))
      else
        None
  }

  /** A literal assembled from a sign, a lexed significand and a lexed exponent. */
  lemma Assemble(sign: Sign, m: Literal, e: Option<ExponentPart>, rest: string, k: nat)
    requires WellFormed(m)
    requires e.Some? ==> IsExponentMarker(e.value.marker) && AllDigits(e.value.digits) && |e.value.digits| > 0
    requires k <= |rest| && MantissaText(m) == rest[..k] && ExponentText(e) == rest[k..]
    ensures var lit := Literal(sign, m.intDigits, m.point, m.fracDigits, e);
      WellFormed(lit) && Render(lit) == SignText(sign) + rest
  {
    var lit := Literal(sign, m.intDigits, m.point, m.fracDigits, e);
    assert MantissaText(lit) == MantissaText(m);
    SplitAt(rest, k);
    calc {
      Render(lit);
      (SignText(sign) + rest[..k]) + rest[k..];
      SignText(sign) + (rest[..k] + rest[k..]);
    }
  }

  /** The syntax of s, or None when java.math.BigDecimal(String) rejects its shape. */
  function Lex(s: string): (r: Option<Literal>)
    ensures r.Some? ==> WellFormed(r.value) && Render(r.value) == s
  {
    var (sign, rest) := SplitSign(s);
    var k := IndexOfAny(rest, ExponentMarkers);
    var m := LexMantissa(rest[..k]);
    var e := LexExponent(rest[k..]);
    if m.None? || e.None? then None
    else
      Assemble(sign, m.value, e.value, rest, k);
      Some(Literal(sign, m.value.intDigits, m.value.point, m.value.fracDigits, e.value))
  }

  /** The number written by the digits of s (most significant first). */
  function DigitsValue(s: string): (r: nat)
    requires AllDigits(s)
  {
    if s == [] then 0
    else 10 * DigitsValue(s[..|s| - 1]) + (s[|s| - 1] as int - '0' as int)
  }

  function Signed(sign: Sign, n: nat): int {
    if sign == Minus then -(n as int) else n
  }

  /** The exponent a literal writes (0 when it has none). */
  function ExponentValue(e: Option<ExponentPart>): int
    requires e.Some? ==> AllDigits(e.value.digits)
  {
    match e
    case None => 0
    case Some(x) => Signed(x.sign, DigitsValue(x.digits))
  }

  /** The BigDecimal a well-formed literal denotes, or None when its exponent or scale overflows an `int`. */
  function Evaluate(lit: Literal): (r: Option<Decimal>)
    requires WellFormed(lit)
    ensures r.Some? ==> ValidDecimal(r.value)
    ensures r.Some? ==> r.value.scale == |lit.fracDigits| - ExponentValue(lit.exponent)
    ensures r.Some? <==> IsInt32(ExponentValue(lit.exponent)) && IsInt32(|lit.fracDigits| - ExponentValue(lit.exponent))
  {
    var exp := ExponentValue(lit.exponent);
    var scale := |lit.fracDigits| - exp;
    if !IsInt32(exp) || !IsInt32(scale) then None
    else Some(Decimal(Signed(lit.sign, DigitsValue(lit.intDigits + lit.fracDigits)), scale))
  }

  /** `new BigDecimal(s)`: Some(value), or None where the constructor throws NumberFormatException. */
  function ParseDecimal(s: string): (r: Option<Decimal>)
    ensures r.Some? ==> s != [] && ValidDecimal(r.value)
  {
    match Lex(s)
    case None => None
    case Some(lit) =>
      assert |Render(lit)| >= |MantissaText(lit)| > 0;
      Evaluate(lit)
  }

  // ---------------------------------------------------------------------
  // Lex and Render are inverse to each other.
  // ---------------------------------------------------------------------

  lemma IndexOfAnyIs(s: string, stops: set<char>, k: nat)
    requires k <= |s|
    requires forall i :: 0 <= i < k ==> s[i] !in stops
    requires k < |s| ==> s[k] in stops
    ensures IndexOfAny(s, stops) == k
  {
  }

  lemma SplitSignOf(sign: Sign, t: string)
    requires |t| > 0 && t[0] != '+' && t[0] != '-'
    ensures SplitSign(SignText(sign) + t) == (sign, t)
  {
    match sign
    case Unsigned =>
      assert SignText(sign) + t == t;
    case Plus =>
      assert (SignText(sign) + t)[1..] == t;
    case Minus =>
      assert (SignText(sign) + t)[1..] == t;
  }

  lemma LexMantissaRender(lit: Literal)
    requires WellFormed(lit)
    ensures LexMantissa(MantissaText(lit)) == Some(Literal(Unsigned, lit.intDigits, lit.point, lit.fracDigits, None))
  {
    var mt := MantissaText(lit);
    var n := |lit.intDigits|;
    assert forall i :: 0 <= i < n ==> mt[i] == lit.intDigits[i];
    IndexOfAnyIs(mt, {'.'}, n);
    assert mt[..n] == lit.intDigits;
    if lit.point {
      assert mt[n + 1..] == lit.fracDigits;
    }
  }

  lemma LexExponentRender(e: Option<ExponentPart>)
    requires e.Some? ==> IsExponentMarker(e.value.marker) && AllDigits(e.value.digits) && |e.value.digits| > 0
    ensures LexExponent(ExponentText(e)) == Some(e)
  {
    if e.Some? {
      var x := e.value;
      var text := ExponentText(e);
      assert text[1..] == SignText(x.sign) + x.digits;
      SplitSignOf(x.sign, x.digits);
    }
  }

  /** Every well-formed literal lexes back to itself. */
  lemma LexRender(lit: Literal)
    requires WellFormed(lit)
    ensures Lex(Render(lit)) == Some(lit)
  {
    var rest := RenderSplit(lit);
    SplitSignOf(lit.sign, rest);
    LexMantissaRender(lit);
    LexExponentRender(lit.exponent);
  }

  /**
   * A rendered literal is its sign text, then a rest whose first exponent
   * marker is where the mantissa text ends.
   */
  lemma RenderSplit(lit: Literal) returns (rest: string)
    requires WellFormed(lit)
    ensures Render(lit) == SignText(lit.sign) + rest
    ensures |rest| > 0 && rest[0] != '+' && rest[0] != '-'
    ensures IndexOfAny(rest, ExponentMarkers) == |MantissaText(lit)|
    ensures rest[..|MantissaText(lit)|] == MantissaText(lit)
    ensures rest[|MantissaText(lit)|..] == ExponentText(lit.exponent)
  {
    var mt, et := MantissaText(lit), ExponentText(lit.exponent);
    rest := mt + et;
    assert rest[0] == if |lit.intDigits| > 0 then lit.intDigits[0] else '.';
    MantissaHasNoMarker(lit);
    assert et != [] ==> et[0] in ExponentMarkers;
    IndexOfAnyAfter(mt, et, ExponentMarkers);
  }

  /** In p + q, where p holds no stop and q is empty or starts with one, the first stop is at |p|. */
  lemma IndexOfAnyAfter(p: string, q: string, stops: set<char>)
    requires forall i :: 0 <= i < |p| ==> p[i] !in stops
    requires q != [] ==> q[0] in stops
    ensures IndexOfAny(p + q, stops) == |p|
    ensures (p + q)[..|p|] == p && (p + q)[|p|..] == q
  {
    var s := p + q;
    assert forall i :: 0 <= i < |p| ==> s[i] == p[i];
    IndexOfAnyIs(s, stops, |p|);
    assert s[..|p|] == p;
    assert s[|p|..] == q;
  }

  /** No exponent marker occurs in a mantissa. */
  lemma MantissaHasNoMarker(lit: Literal)
    requires WellFormed(lit)
    ensures forall i :: 0 <= i < |MantissaText(lit)| ==> MantissaText(lit)[i] !in ExponentMarkers
  {
    var mt := MantissaText(lit);
    forall i | 0 <= i < |mt| ensures mt[i] !in ExponentMarkers {
      if i < |lit.intDigits| {
        assert mt[i] == lit.intDigits[i];
      } else if lit.point && i == |lit.intDigits| {
        assert mt[i] == '.';
      } else {
        var j := i - |lit.intDigits| - (if lit.point then 1 else 0);
        assert mt[i] == lit.fracDigits[j];
      }
    }
  }

  /** Consequently, parsing a rendered literal evaluates that literal. */
  lemma ParseRender(lit: Literal)
    requires WellFormed(lit)
    ensures ParseDecimal(Render(lit)) == Evaluate(lit)
  {
    LexRender(lit);
  }

  /** Every character of a rendered literal is a digit, a point, a sign or an exponent marker. */
  lemma RenderAlphabet(lit: Literal, i: nat)
    requires WellFormed(lit) && i < |Render(lit)|
    ensures var c := Render(lit)[i];
      IsDigit(c) || c == '.' || c == '+' || c == '-' || IsExponentMarker(c)
  {
    var s, mt, e := SignText(lit.sign), MantissaText(lit), ExponentText(lit.exponent);
    if i < |s| {
    } else if i < |s| + |mt| {
      var j := i - |s|;
      assert Render(lit)[i] == mt[j];
      if j < |lit.intDigits| {
        assert mt[j] == lit.intDigits[j];
      } else if lit.point && j == |lit.intDigits| {
      } else {
        assert mt[j] == lit.fracDigits[j - |lit.intDigits| - (if lit.point then 1 else 0)];
      }
    } else {
      var j := i - |s| - |mt|;
      assert Render(lit)[i] == e[j];
      var x := lit.exponent.value;
      if j == 0 {
      } else if j < 1 + |SignText(x.sign)| {
      } else {
        assert e[j] == x.digits[j - 1 - |SignText(x.sign)|];
      }
    }
  }

  /** A buffer holding any other character (a letter, a space, a comma) is rejected. */
  lemma RejectsForeignCharacter(s: string, i: nat)
    requires i < |s|
    requires !IsDigit(s[i]) && s[i] != '.' && s[i] != '+' && s[i] != '-' && !IsExponentMarker(s[i])
    ensures ParseDecimal(s) == None
  {
    if Lex(s).Some? {
      RenderAlphabet(Lex(s).value, i);
    }
  }

  /** A non-empty string of digits is always accepted, as an integer with scale 0. */
  lemma DigitsParse(s: string)
    requires |s| > 0 && AllDigits(s)
    ensures ParseDecimal(s) == Some(Decimal(DigitsValue(s), 0))
  {
    var lit := Literal(Unsigned, s, false, [], None);
    PlainLiteral(lit);
    assert Render(lit) == s && lit.intDigits + lit.fracDigits == s;
    ParseRender(lit);
  }

  /**
   * Digits, a point and digits ("10.10", "0.05", "7.") are accepted as the
   * integer written by all the digits, scaled by the number of fraction digits.
   */
  lemma PointParse(intDigits: string, fracDigits: string)
    requires |intDigits| > 0 && AllDigits(intDigits) && AllDigits(fracDigits) && IsInt32(|fracDigits|)
    ensures AllDigits(intDigits + fracDigits)
    ensures ParseDecimal(intDigits + ['.'] + fracDigits)
         == Some(Decimal(DigitsValue(intDigits + fracDigits), |fracDigits|))
  {
    var lit := Literal(Unsigned, intDigits, true, fracDigits, None);
    PlainLiteral(lit);
    ParseRender(lit);
  }

  /** An unsigned literal without exponent renders as its mantissa and evaluates its digits. */
  lemma PlainLiteral(lit: Literal)
    requires lit.sign == Unsigned && lit.exponent == None
    requires |lit.intDigits| > 0 && AllDigits(lit.intDigits) && AllDigits(lit.fracDigits)
    requires (!lit.point ==> lit.fracDigits == []) && IsInt32(|lit.fracDigits|)
    ensures WellFormed(lit)
    ensures Render(lit) == lit.intDigits + (if lit.point then ['.'] else []) + lit.fracDigits
    ensures AllDigits(lit.intDigits + lit.fracDigits)
    ensures Evaluate(lit) == Some(Decimal(DigitsValue(lit.intDigits + lit.fracDigits), |lit.fracDigits|))
  {
    assert SignText(lit.sign) == [] && ExponentText(lit.exponent) == [];
    var digits := lit.intDigits + lit.fracDigits;
    assert forall i :: 0 <= i < |digits| ==> IsDigit(digits[i]) by {
      forall i | 0 <= i < |digits| ensures IsDigit(digits[i]) {
        if i >= |lit.intDigits| {
          assert digits[i] == lit.fracDigits[i - |lit.intDigits|];
        }
      }
    }
  }

  /** Appending a digit multiplies the value by ten and adds the digit. */
  lemma DigitsValueSnoc(s: string, c: char)
    requires AllDigits(s) && IsDigit(c)
    ensures AllDigits(s + [c])
    ensures DigitsValue(s + [c]) == 10 * DigitsValue(s) + (c as int - '0' as int)
  {
    assert (s + [c])[..|s|] == s;
  }

  /** A digit string of zeros only writes the number 0. */
  lemma {:induction false} ZerosValue(s: string)
    requires forall i :: 0 <= i < |s| ==> s[i] == '0'
    ensures AllDigits(s) && DigitsValue(s) == 0
  {
    if s != [] {
      ZerosValue(s[..|s| - 1]);
    }
  }

  // ---------------------------------------------------------------------
  // The value a literal stands for.
  // ---------------------------------------------------------------------

  /** The digits of a followed by those of b write a * 10^|b| + b. */
  lemma {:induction false} DigitsValueAppend(a: string, b: string)
    requires AllDigits(a) && AllDigits(b)
    ensures AllDigits(a + b)
    ensures DigitsValue(a + b) == ShiftLeft(DigitsValue(a), |b|) + DigitsValue(b)
  {
    if b == [] {
      assert a + b == a;
    } else {
      var init, last := b[..|b| - 1], b[|b| - 1];
      SplitLast(a, b);
      DigitsValueAppend(a, init);
      DigitsValueSnoc(a + init, last);
      DigitsValueSnoc(init, last);
    }
  }

  /** A non-empty digit string is its digits but the last, then the last. */
  lemma SplitLast(a: string, b: string)
    requires AllDigits(b) && b != []
    ensures AllDigits(b[..|b| - 1]) && IsDigit(b[|b| - 1])
    ensures b[..|b| - 1] + [b[|b| - 1]] == b
    ensures a + b == (a + b[..|b| - 1]) + [b[|b| - 1]]
  {
    var init := b[..|b| - 1];
    assert forall i :: 0 <= i < |init| ==> init[i] == b[i];
  }

  /**
   * new BigDecimal(s) stands for sign * (integer digits + fraction digits /
   * 10^|fraction|) * 10^exponent.
   */
  lemma EvaluateValue(lit: Literal)
    requires WellFormed(lit) && Evaluate(lit).Some?
    ensures Value(Evaluate(lit).value)
         == MovePointLeft(
              Signed(lit.sign, DigitsValue(lit.intDigits)) as real
                + MovePointLeft(Signed(lit.sign, DigitsValue(lit.fracDigits)) as real, |lit.fracDigits|),
              -ExponentValue(lit.exponent))
  {
    var n, e := |lit.fracDigits|, ExponentValue(lit.exponent);
    var si, sf := Signed(lit.sign, DigitsValue(lit.intDigits)), Signed(lit.sign, DigitsValue(lit.fracDigits));
    EvaluateUnscaled(lit);
    var u := ShiftLeft(si, n) + sf;
    MovePointLeftCompose(u as real, n, -e);
    MovePointLeftAdd(ShiftLeft(si, n) as real, sf as real, n);
    ShiftLeftValue(si, n);
  }

  /**
   * The unscaled value: the signed integer part shifted past the fraction
   * digits, plus the signed fraction digits; the scale is |fraction| - exponent.
   */
  lemma EvaluateUnscaled(lit: Literal)
    requires WellFormed(lit) && Evaluate(lit).Some?
    ensures Evaluate(lit).value
         == Decimal(ShiftLeft(Signed(lit.sign, DigitsValue(lit.intDigits)), |lit.fracDigits|)
                      + Signed(lit.sign, DigitsValue(lit.fracDigits)),
                    |lit.fracDigits| - ExponentValue(lit.exponent))
  {
    DigitsValueAppend(lit.intDigits, lit.fracDigits);
    ShiftLeftNegate(DigitsValue(lit.intDigits), |lit.fracDigits|);
  }

  /** A '-' sign negates the value of the unsigned literal, and a '+' sign keeps it. */
  lemma EvaluateSign(lit: Literal)
    requires WellFormed(lit) && Evaluate(lit).Some?
    ensures var unsigned := Evaluate(lit.(sign := Unsigned));
      && unsigned.Some?
      && Value(Evaluate(lit).value)
         == if lit.sign == Minus then -Value(unsigned.value) else Value(unsigned.value)
  {
    var unsigned := lit.(sign := Unsigned);
    var d := Evaluate(unsigned).value;
    assert Evaluate(lit).value.scale == d.scale;
    if lit.sign == Minus {
      assert Evaluate(lit).value.unscaled == -d.unscaled;
      MovePointLeftNegate(d.unscaled as real, d.scale);
    }
  }

  /** An exponent e multiplies the value of the literal without it by 10^e. */
  lemma EvaluateExponent(lit: Literal)
    requires WellFormed(lit) && Evaluate(lit).Some?
    requires IsInt32(|lit.fracDigits|)
    ensures var plain := Evaluate(lit.(exponent := None));
      && plain.Some?
      && Value(Evaluate(lit).value) == MovePointLeft(Value(plain.value), -ExponentValue(lit.exponent))
  {
    var plain := lit.(exponent := None);
    var d := Evaluate(plain).value;
    assert Evaluate(lit).value.unscaled == d.unscaled;
    MovePointLeftCompose(d.unscaled as real, d.scale, -ExponentValue(lit.exponent));
  }
}
