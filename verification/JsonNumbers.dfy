/** The text of finite numbers, and a reader for it. */
module JsonNumbers {
  import opened Sequences
  import opened CodeUnits
  import opened Digits

  /**
   A finite double by its shortest decimal: the value is 0.d1 d2 ... dk times 10^point, negated if
   `negative`. Both zeros have no digits and point 0.
   */
  datatype Decimal = Decimal(negative: bool, digits: seq<Digit>, point: int)
  {
    predicate Valid() {
      if digits == [] then point == 0 else digits[0] != 0 && digits[|digits| - 1] != 0
    }
  }

  datatype Parsed<T> = Bad | Good(value: T, rest: Text)

  const MINUS: Unit := '-' as Unit
  const PLUS: Unit := '+' as Unit
  const DOT: Unit := '.' as Unit
  const LETTER_E: Unit := 'e' as Unit
  const ZERO: Unit := '0' as Unit

  function Codes(ds: seq<Digit>): Text
  {
    seq(|ds|, i requires 0 <= i < |ds| => ZERO + ds[i] as Unit)
  }

  function Zeros(n: nat): seq<Digit>
  {
    seq(n, _ => 0)
  }

  /** The parts of a numeral. An empty fraction and a zero exponent are not written. */
  datatype Numeral = Numeral(whole: seq<Digit>, fraction: seq<Digit>, exponent: int)

  /** Number::toString: which digits go before and after the point, and whether an exponent is needed. */
  function Layout(ds: seq<Digit>, n: int): Numeral
  {
    if ds == [] then Numeral([0], [], 0)
    else if |ds| <= n <= 21 then Numeral(ds + Zeros(n - |ds|), [], 0)
    else if 0 < n <= 21 then Numeral(ds[..n], ds[n..], 0)
    else if -6 < n <= 0 then Numeral([0], Zeros(-n) + ds, 0)
    else Numeral(ds[..1], ds[1..], n - 1)
  }

  function FractionText(ds: seq<Digit>): Text
  {
    if ds == [] then [] else [DOT] + Codes(ds)
  }

  function ExponentText(e: int): Text
  {
    if e == 0 then []
    else if e < 0 then [LETTER_E, MINUS] + Codes(ToDigits(-e))
    else [LETTER_E, PLUS] + Codes(ToDigits(e))
  }

  function NumeralText(p: Numeral): Text
  {
    Codes(p.whole) + FractionText(p.fraction) + ExponentText(p.exponent)
  }

  function Sign(negative: bool): Text { if negative then [MINUS] else [] }

  /** Numbers as the canonical form writes them: the host's text, except that -0 keeps its sign. */
  function NumberText(d: Decimal): Text
  {
    Sign(d.negative) + NumeralText(Layout(d.digits, d.point))
  }

  predicate IsDigit(u: Unit) { ZERO <= u < ZERO + 10 }

  /** Text that can follow a number without being read as part of it. */
  predicate EndsNumber(rest: Text)
  {
    rest == [] || !(IsDigit(rest[0]) || rest[0] == DOT || rest[0] == LETTER_E)
  }

  function TakeDigits(s: Text): (r: (seq<Digit>, Text))
    ensures |r.0| + |r.1| == |s|
  {
    if s == [] || !IsDigit(s[0]) then ([], s)
    else
      var (ds, rest) := TakeDigits(s[1..]);
      ([(s[0] - ZERO) as Digit] + ds, rest)
  }

  function ReadFraction(s: Text): (r: (seq<Digit>, Text))
    ensures |r.1| <= |s|
  {
    if s != [] && s[0] == DOT then TakeDigits(s[1..]) else ([], s)
  }

  function ReadExponent(s: Text): (r: (int, Text))
    ensures |r.1| <= |s|
  {
    if |s| < 2 || s[0] != LETTER_E then (0, s)
    else
      var (ds, rest) := TakeDigits(s[2..]);
      var e: int := FromDigits(ds);
      (if s[1] == MINUS then -e else e, rest)
  }

  function StripLeading(ds: seq<Digit>, n: int): (seq<Digit>, int)
  {
    if ds != [] && ds[0] == 0 then StripLeading(ds[1..], n - 1) else (ds, n)
  }

  function StripTrailing(ds: seq<Digit>): seq<Digit>
  {
    if ds != [] && ds[|ds| - 1] == 0 then StripTrailing(ds[..|ds| - 1]) else ds
  }

  function Normalise(negative: bool, ds: seq<Digit>, n: int): Decimal
  {
    var (lead, point) := StripLeading(ds, n);
    var core := StripTrailing(lead);
    Decimal(negative, core, if core == [] then 0 else point)
  }

  datatype Raw = Raw(digits: seq<Digit>, point: int)

  function ReadUnsigned(s: Text): (r: Parsed<Raw>)
    ensures r.Good? ==> |r.rest| < |s|
  {
    var (whole, s1) := TakeDigits(s);
    if whole == [] then Bad
    else
      var (fraction, s2) := ReadFraction(s1);
      var (exponent, s3) := ReadExponent(s2);
      Good(Raw(whole + fraction, |whole| + exponent), s3)
  }

  /** A reader of decimal numerals: sign, digits, an optional fraction and an optional signed exponent. */
  function ReadNumber(s: Text): (r: Parsed<Decimal>)
    ensures r.Good? ==> |r.rest| < |s|
  {
    var negative := s != [] && s[0] == MINUS;
    match ReadUnsigned(if negative then s[1..] else s)
    case Bad => Bad
    case Good(raw, rest) => Good(Normalise(negative, raw.digits, raw.point), rest)
  }

  lemma {:induction false} TakeDigitsOf(ds: seq<Digit>, rest: Text)
    requires rest == [] || !IsDigit(rest[0])
    ensures TakeDigits(Codes(ds) + rest) == (ds, rest)
  {
    if ds == [] {
      assert Codes(ds) + rest == rest;
    } else {
      TakeDigitsOf(ds[1..], rest);
      assert Codes(ds) == [ZERO + ds[0] as Unit] + Codes(ds[1..]);
      Assoc([ZERO + ds[0] as Unit], Codes(ds[1..]), rest);
      Tail(ZERO + ds[0] as Unit, Codes(ds[1..]) + rest);
      assert [ds[0]] + ds[1..] == ds;
    }
  }

  lemma ReadExponentOf(e: int, rest: Text)
    requires EndsNumber(rest)
    ensures ReadExponent(ExponentText(e) + rest) == (e, rest)
    ensures var s := ExponentText(e) + rest; s == [] || !(IsDigit(s[0]) || s[0] == DOT)
  {
    if e == 0 {
      assert ExponentText(e) + rest == rest;
    } else {
      var n := if e < 0 then -e else e;
      var head := [LETTER_E, if e < 0 then MINUS else PLUS];
      var tail := Codes(ToDigits(n)) + rest;
      Assoc(head, Codes(ToDigits(n)), rest);
      assert (head + tail)[2..] == tail;
      TakeDigitsOf(ToDigits(n), rest);
      DigitsRoundTrip(n);
    }
  }

  lemma ReadFractionOf(ds: seq<Digit>, rest: Text)
    requires rest == [] || !(IsDigit(rest[0]) || rest[0] == DOT)
    ensures ReadFraction(FractionText(ds) + rest) == (ds, rest)
    ensures var s := FractionText(ds) + rest; s == [] || !IsDigit(s[0])
  {
    if ds == [] {
      assert FractionText(ds) + rest == rest;
    } else {
      Assoc([DOT], Codes(ds), rest);
      Tail(DOT, Codes(ds) + rest);
      TakeDigitsOf(ds, rest);
    }
  }

  lemma NumeralParts(p: Numeral, rest: Text)
    ensures NumeralText(p) + rest == Codes(p.whole) + (FractionText(p.fraction) + (ExponentText(p.exponent) + rest))
  {
    Assoc(Codes(p.whole) + FractionText(p.fraction), ExponentText(p.exponent), rest);
    Assoc(Codes(p.whole), FractionText(p.fraction), ExponentText(p.exponent) + rest);
  }

  lemma ReadAfterWhole(whole: seq<Digit>, fraction: seq<Digit>, e: int, s2: Text, s3: Text, rest: Text)
    requires whole != [] && (s2 == [] || !IsDigit(s2[0]))
    requires ReadFraction(s2) == (fraction, s3) && ReadExponent(s3) == (e, rest)
    ensures ReadUnsigned(Codes(whole) + s2) == Good(Raw(whole + fraction, |whole| + e), rest)
  {
    TakeDigitsOf(whole, s2);
  }

  /** The parts of a numeral are read back from its text. */
  lemma ReadNumeral(p: Numeral, rest: Text)
    requires p.whole != [] && EndsNumber(rest)
    ensures ReadUnsigned(NumeralText(p) + rest) == Good(Raw(p.whole + p.fraction, |p.whole| + p.exponent), rest)
  {
    NumeralParts(p, rest);
    var s3 := ExponentText(p.exponent) + rest;
    ReadExponentOf(p.exponent, rest);
    ReadFractionOf(p.fraction, s3);
    ReadAfterWhole(p.whole, p.fraction, p.exponent, FractionText(p.fraction) + s3, s3, rest);
  }

  lemma {:induction false} StripLeadingOf(zeros: nat, ds: seq<Digit>, n: int)
    requires ds != [] && ds[0] != 0
    ensures StripLeading(Zeros(zeros) + ds, n) == (ds, n - zeros)
  {
    if zeros == 0 {
      assert Zeros(zeros) + ds == ds;
    } else {
      assert Zeros(zeros) == [0] + Zeros(zeros - 1);
      Assoc([0], Zeros(zeros - 1), ds);
      Tail(0, Zeros(zeros - 1) + ds);
      StripLeadingOf(zeros - 1, ds, n - 1);
    }
  }

  lemma {:induction false} StripTrailingOf(ds: seq<Digit>, zeros: nat)
    requires ds != [] && ds[|ds| - 1] != 0
    ensures StripTrailing(ds + Zeros(zeros)) == ds
  {
    if zeros == 0 {
      assert ds + Zeros(zeros) == ds;
    } else {
      var s := ds + Zeros(zeros);
      assert s[..|s| - 1] == ds + Zeros(zeros - 1);
      StripTrailingOf(ds, zeros - 1);
    }
  }

  lemma NormaliseOf(negative: bool, before: nat, ds: seq<Digit>, after: nat, n: int)
    requires ds != [] && ds[0] != 0 && ds[|ds| - 1] != 0
    ensures Normalise(negative, Zeros(before) + ds + Zeros(after), n) == Decimal(negative, ds, n - before)
  {
    Assoc(Zeros(before), ds, Zeros(after));
    StripLeadingOf(before, ds + Zeros(after), n);
    StripTrailingOf(ds, after);
  }

  /** The digits of a layout, put together, are the number's digits between zeros. */
  lemma LayoutDigits(ds: seq<Digit>, n: int) returns (before: nat, after: nat)
    requires ds != []
    ensures var p := Layout(ds, n);
            p.whole != [] && p.whole + p.fraction == Zeros(before) + ds + Zeros(after) && |p.whole| + p.exponent == n + before
  {
    before, after := 0, 0;
    if |ds| <= n <= 21 {
      after := n - |ds|;
    } else if 0 < n <= 21 {
      Halves(ds, n);
    } else if -6 < n <= 0 {
      before := 1 - n;
      Assoc([0], Zeros(-n), ds);
      assert [0] + Zeros(-n) == Zeros(before);
    } else {
      Halves(ds, 1);
    }
    assert Zeros(0) + ds == ds && Zeros(before) + ds + Zeros(0) == Zeros(before) + ds;
  }

  lemma LayoutKeepsValue(d: Decimal)
    requires d.Valid()
    ensures var p := Layout(d.digits, d.point);
            p.whole != [] && Normalise(d.negative, p.whole + p.fraction, |p.whole| + p.exponent) == d
  {
    if d.digits == [] {
      assert [0][1..] == [] && [0] + [] == [0];
      assert StripLeading([0], 1) == ([], 0);
    } else {
      var before, after := LayoutDigits(d.digits, d.point);
      NormaliseOf(d.negative, before, d.digits, after, d.point + before);
    }
  }

  /** Every number is read back from its canonical text, whatever text ends it. */
  lemma NumberRoundTrip(d: Decimal, rest: Text)
    requires d.Valid() && EndsNumber(rest)
    ensures ReadNumber(NumberText(d) + rest) == Good(d, rest)
  {
    var p := Layout(d.digits, d.point);
    LayoutKeepsValue(d);
    ReadNumeral(p, rest);
    Assoc(Sign(d.negative), NumeralText(p), rest);
    if d.negative {
      Tail(MINUS, NumeralText(p) + rest);
    } else {
      assert Sign(false) + (NumeralText(p) + rest) == NumeralText(p) + rest;
      assert NumeralText(p)[0] == ZERO + p.whole[0] as Unit;
    }
  }
}
