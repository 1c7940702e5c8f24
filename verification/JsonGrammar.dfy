/** The grammar of JSON texts, sections 2 to 7 of RFC 8259, and that every canonical text follows it. */
module JsonGrammar {
  import opened Sequences
  import opened CodeUnits
  import opened Digits
  import opened KeyOrder
  import opened JsonNumbers
  import opened JsonStrings
  import opened CanonicalJson

  // ----- Numbers: section 6

  predicate DigitUnits(s: Text)
  {
    s != [] && forall i | 0 <= i < |s| :: IsDigit(s[i])
  }

  /** A zero, or digits that do not start with one. */
  predicate IntegerPart(s: Text)
  {
    DigitUnits(s) && (s[0] == ZERO ==> |s| == 1)
  }

  predicate FractionPart(s: Text)
  {
    s == [] || (s[0] == DOT && DigitUnits(s[1..]))
  }

  predicate ExponentPart(s: Text)
  {
    s == [] ||
    (|s| > 1 && (s[0] == LETTER_E || s[0] == 'E' as Unit) &&
     (DigitUnits(s[1..]) || ((s[1] == MINUS || s[1] == PLUS) && DigitUnits(s[2..]))))
  }

  ghost predicate NumberToken(s: Text)
  {
    exists minus: bool, whole, fraction, exponent ::
      && s == Sign(minus) + (whole + (fraction + exponent))
      && IntegerPart(whole) && FractionPart(fraction) && ExponentPart(exponent)
  }

  // ----- Strings: section 7

  predicate Unescaped(u: Unit)
  {
    u >= 0x20 && u != QUOTE && u != BACKSLASH
  }

  predicate EscapeLetter(u: Unit)
  {
    u == QUOTE || u == BACKSLASH || u == '/' as Unit || u == 'b' as Unit || u == 'f' as Unit ||
    u == 'n' as Unit || u == 'r' as Unit || u == 't' as Unit
  }

  predicate HexUnit(u: Unit)
  {
    IsDigit(u) || 65 <= u < 71 || 97 <= u < 103
  }

  predicate StringContent(s: Text)
  {
    || s == []
    || (Unescaped(s[0]) && StringContent(s[1..]))
    || (|s| >= 2 && s[0] == BACKSLASH && EscapeLetter(s[1]) && StringContent(s[2..]))
    || (|s| >= 6 && s[0] == BACKSLASH && s[1] == 'u' as Unit && HexUnit(s[2]) && HexUnit(s[3]) && HexUnit(s[4]) &&
        HexUnit(s[5]) && StringContent(s[6..]))
  }

  ghost predicate StringToken(s: Text)
  {
    exists content :: s == [QUOTE] + (content + [QUOTE]) && StringContent(content)
  }

  // ----- Values, arrays and objects: sections 2 to 5

  predicate Whitespace(s: Text)
  {
    forall i | 0 <= i < |s| :: s[i] == 0x20 || s[i] == 0x09 || s[i] == 0x0A || s[i] == 0x0D
  }

  ghost predicate ValueToken(s: Text)
    decreases |s|, 2
  {
    || s == NULL_TEXT || s == TRUE_TEXT || s == FALSE_TEXT
    || NumberToken(s) || StringToken(s)
    || (exists inner :: s == [OPEN_ARRAY] + (inner + [CLOSE_ARRAY]) && ArrayContent(inner))
    || (exists inner :: s == [OPEN_OBJECT] + (inner + [CLOSE_OBJECT]) && ObjectContent(inner))
  }

  ghost predicate ArrayContent(s: Text)
    decreases |s|, 4
  {
    Whitespace(s) || exists items: seq<Text> :: Separated(s, items) && forall i | 0 <= i < |items| :: Element(items[i])
  }

  ghost predicate ObjectContent(s: Text)
    decreases |s|, 5
  {
    Whitespace(s) || exists items: seq<Text> :: Separated(s, items) && forall i | 0 <= i < |items| :: Member(items[i])
  }

  /** At least one part, with commas between the parts. */
  ghost predicate Separated(s: Text, items: seq<Text>)
    ensures Separated(s, items) ==> forall i | 0 <= i < |items| :: |items[i]| <= |s|
  {
    items != [] && s == Join(items, COMMA) &&
    forall i | 0 <= i < |items| :: |items[i]| <= |s|
  }

  /** A value between blanks. */
  ghost predicate Element(s: Text)
    decreases |s|, 3
  {
    exists before, v, after :: s == before + (v + after) && Whitespace(before) && Whitespace(after) && ValueToken(v)
  }

  ghost predicate Member(s: Text)
    decreases |s|, 4
  {
    exists name, v :: Named(s, name, v) && Element(v)
  }

  /** A quoted name, maybe between blanks, a colon and more. */
  ghost predicate Named(s: Text, name: Text, v: Text)
  {
    exists before, after ::
      s == before + (name + (after + ([COLON] + v))) && Whitespace(before) && StringToken(name) && Whitespace(after)
  }

  ghost predicate JsonText(s: Text)
  {
    Element(s)
  }

  // ----- Canonical numbers are number tokens

  lemma CodesAreDigits(ds: seq<Digit>)
    requires ds != []
    ensures DigitUnits(Codes(ds)) && (Codes(ds)[0] == ZERO <==> ds[0] == 0) && |Codes(ds)| == |ds|
  {
  }

  lemma FractionIsPart(ds: seq<Digit>)
    ensures FractionPart(FractionText(ds))
  {
    if ds != [] {
      CodesAreDigits(ds);
      Tail(DOT, Codes(ds));
    }
  }

  lemma ExponentIsPart(e: int)
    ensures ExponentPart(ExponentText(e))
  {
    if e != 0 {
      var ds := ToDigits(if e < 0 then -e else e);
      CodesAreDigits(ds);
      assert ExponentText(e)[2..] == Codes(ds);
    }
  }

  lemma WholePart(ds: seq<Digit>, n: int)
    requires ds == [] || ds[0] != 0
    ensures IntegerPart(Codes(Layout(ds, n).whole))
  {
    CodesAreDigits(Layout(ds, n).whole);
  }

  lemma NumberIsToken(d: Decimal)
    requires d.Valid()
    ensures NumberToken(NumberText(d))
  {
    var p := Layout(d.digits, d.point);
    WholePart(d.digits, d.point);
    FractionIsPart(p.fraction);
    ExponentIsPart(p.exponent);
    Assoc(Codes(p.whole), FractionText(p.fraction), ExponentText(p.exponent));
    assert NumberText(d) == Sign(d.negative) + (Codes(p.whole) + (FractionText(p.fraction) + ExponentText(p.exponent)));
  }

  // ----- Quoted strings are string tokens

  lemma UnescapedFirst(u: Unit, rest: Text)
    requires Unescaped(u) && StringContent(rest)
    ensures StringContent([u] + rest)
  {
    Tail(u, rest);
  }

  lemma HexIsUnit(n: int)
    requires 0 <= n < 16
    ensures HexUnit(Hex(n))
  {
  }

  lemma EscapedFirst(u: Unit, rest: Text)
    requires StringContent(rest)
    ensures StringContent(EscapeUnit(u) + rest)
  {
    var s := EscapeUnit(u) + rest;
    if ShortEscape(u) != 0 {
      assert s[2..] == rest;
    } else if u < 0x20 || Leading(u) || Trailing(u) {
      HexPlaces(u as int);
      assert s[6..] == rest;
      HexIsUnit(u as int / 4096);
      HexIsUnit(u as int / 256 % 16);
      HexIsUnit(u as int / 16 % 16);
      HexIsUnit(u as int % 16);
    } else {
      UnescapedFirst(u, rest);
    }
  }

  lemma {:induction false} EscapeIsContent(t: Text)
    ensures StringContent(Escape(t))
    decreases |t|
  {
    if t != [] {
      if |t| > 1 && Leading(t[0]) && Trailing(t[1]) {
        EscapeIsContent(t[2..]);
        UnescapedFirst(t[1], Escape(t[2..]));
        UnescapedFirst(t[0], [t[1]] + Escape(t[2..]));
        assert [t[0], t[1]] + Escape(t[2..]) == [t[0]] + ([t[1]] + Escape(t[2..]));
      } else {
        EscapeIsContent(t[1..]);
        EscapedFirst(t[0], Escape(t[1..]));
      }
    }
  }

  lemma QuoteIsToken(t: Text)
    ensures StringToken(Quote(t))
  {
    EscapeIsContent(t);
  }

  // ----- Printed values are value tokens

  lemma {:induction false} PartShorter(parts: seq<Text>, i: nat)
    requires i < |parts|
    ensures |parts[i]| <= |Join(parts, COMMA)|
  {
    if i > 0 { PartShorter(parts[1..], i - 1); }
  }

  lemma ValueIsElement(v: Text)
    requires ValueToken(v)
    ensures Element(v)
  {
    var none: Text := [];
    assert Whitespace(none) && v == none + (v + none);
  }

  lemma LabelIsMember(key: Text, text: Text)
    requires Element(text)
    ensures Member(Label(key, text))
  {
    LabelIsNamed(key, text);
  }

  lemma LabelIsNamed(key: Text, text: Text)
    ensures Named(Label(key, text), Quote(key), text)
  {
    var none: Text := [];
    QuoteIsToken(key);
    assert Whitespace(none);
    assert none + ([COLON] + text) == [COLON] + text;
    assert Label(key, text) == none + (Quote(key) + (none + ([COLON] + text)));
  }

  lemma JoinIsSeparated(items: seq<Text>)
    requires items != []
    ensures Separated(Join(items, COMMA), items)
  {
    forall i | 0 <= i < |items| ensures |items[i]| <= |Join(items, COMMA)| { PartShorter(items, i); }
  }

  lemma ElementsAreContent(items: seq<Text>)
    requires forall i | 0 <= i < |items| :: Element(items[i])
    ensures ArrayContent(Join(items, COMMA))
  {
    if items != [] { JoinIsSeparated(items); }
  }

  lemma MembersAreContent(items: seq<Text>)
    requires forall i | 0 <= i < |items| :: Member(items[i])
    ensures ObjectContent(Join(items, COMMA))
  {
    if items != [] { JoinIsSeparated(items); }
  }

  lemma {:induction false} PrintIsToken(v: Value)
    requires Encodable(v) && WellFormed(v)
    ensures ValueToken(Print(v))
    decreases v, 1
  {
    match v
    case Number(d) => NumberIsToken(d);
    case String(t) => QuoteIsToken(t);
    case Array(items) =>
      ItemsAreElements(items);
      ElementsAreContent(PrintItems(items));
    case Object(fields) =>
      FieldsAreMembers(fields);
      MembersAreContent(PrintFields(fields));
    case _ =>
  }

  lemma {:induction false} ItemsAreElements(items: seq<Value>)
    requires forall i | 0 <= i < |items| :: Encodable(items[i]) && WellFormed(items[i])
    ensures forall i | 0 <= i < |items| :: Element(PrintItems(items)[i])
    decreases items, 0
  {
    if items != [] {
      PrintIsToken(items[0]);
      ValueIsElement(Print(items[0]));
      ItemsAreElements(items[1..]);
    }
  }

  lemma {:induction false} FieldsAreMembers(fields: seq<Keyed<Value>>)
    requires forall i | 0 <= i < |fields| :: Encodable(fields[i].value) && WellFormed(fields[i].value)
    ensures forall i | 0 <= i < |fields| :: Member(PrintFields(fields)[i])
    decreases fields, 0
  {
    if fields != [] {
      PrintIsToken(fields[0].value);
      ValueIsElement(Print(fields[0].value));
      LabelIsMember(fields[0].key, Print(fields[0].value));
      FieldsAreMembers(fields[1..]);
    }
  }

  /** Every canonical text is a JSON text. */
  lemma CanonicalIsJson(v: Value)
    requires WellFormed(v) && Canonical(v).Ok?
    ensures JsonText(Canonical(v).value)
  {
    CanonicalPrints(v);
    NormKeeps(v);
    PrintIsToken(Norm(v));
    ValueIsElement(Print(Norm(v)));
  }
}
