/** Quoted strings as JSON.stringify writes them, and a reader for them. */
module JsonStrings {
  import opened Sequences
  import opened CodeUnits
  import opened JsonNumbers

  const QUOTE: Unit := '"' as Unit
  const BACKSLASH: Unit := '\\' as Unit

  predicate Leading(u: Unit) { 0xD800 <= u < 0xDC00 }

  predicate Trailing(u: Unit) { 0xDC00 <= u < 0xE000 }

  function Hex(n: int): Unit
    requires 0 <= n < 16
  {
    (if n < 10 then 48 + n else 87 + n) as Unit
  }

  /** The letter of a two-unit escape, or 0 when the unit has none. */
  function ShortEscape(u: Unit): Unit
  {
    if u == QUOTE || u == BACKSLASH then u
    else if u == 8 then 'b' as Unit
    else if u == 9 then 't' as Unit
    else if u == 10 then 'n' as Unit
    else if u == 12 then 'f' as Unit
    else if u == 13 then 'r' as Unit
    else 0
  }

  function EscapeUnit(u: Unit): Text
  {
    if ShortEscape(u) != 0 then [BACKSLASH, ShortEscape(u)]
    else if u < 0x20 || Leading(u) || Trailing(u) then
      var n := u as int;
      [BACKSLASH, 'u' as Unit, Hex(n / 4096), Hex(n / 256 % 16), Hex(n / 16 % 16), Hex(n % 16)]
    else [u]
  }

  /** A surrogate pair is written as it is; a surrogate without its partner is escaped. */
  function Escape(t: Text): Text
  {
    if t == [] then []
    else if |t| > 1 && Leading(t[0]) && Trailing(t[1]) then [t[0], t[1]] + Escape(t[2..])
    else EscapeUnit(t[0]) + Escape(t[1..])
  }

  function Quote(t: Text): Text
  {
    [QUOTE] + (Escape(t) + [QUOTE])
  }

  function HexValue(u: Unit): int
  {
    if 48 <= u < 58 then u as int - 48 else if 97 <= u < 103 then u as int - 87 else -1
  }

  function Unescape(letter: Unit): int
  {
    if letter == QUOTE || letter == BACKSLASH then letter as int
    else if letter == 'b' as Unit then 8
    else if letter == 't' as Unit then 9
    else if letter == 'n' as Unit then 10
    else if letter == 'f' as Unit then 12
    else if letter == 'r' as Unit then 13
    else -1
  }

  /** One unit of a string's content, with the text after it. */
  function ReadUnit(s: Text): (r: Parsed<Unit>)
    ensures r.Good? ==> |r.rest| < |s|
  {
    if s == [] || s[0] < 0x20 then Bad
    else if s[0] != BACKSLASH then Good(s[0], s[1..])
    else if |s| < 2 then Bad
    else if Unescape(s[1]) >= 0 then Good(Unescape(s[1]) as Unit, s[2..])
    else if |s| < 6 || s[1] != 'u' as Unit then Bad
    else
      var a, b, c, d := HexValue(s[2]), HexValue(s[3]), HexValue(s[4]), HexValue(s[5]);
      if a < 0 || b < 0 || c < 0 || d < 0 then Bad
      else Good((a * 4096 + b * 256 + c * 16 + d) as Unit, s[6..])
  }

  /** The content of a string up to its closing quote. */
  function ReadContent(s: Text): (r: Parsed<Text>)
    ensures r.Good? ==> |r.rest| < |s|
    decreases |s|
  {
    if s == [] then Bad
    else if s[0] == QUOTE then Good([], s[1..])
    else
      match ReadUnit(s)
      case Bad => Bad
      case Good(u, rest) =>
        match ReadContent(rest)
        case Bad => Bad
        case Good(t, rest') => Good([u] + t, rest')
  }

  lemma HexPlaces(n: int)
    requires 0 <= n < 0x10000
    ensures 0 <= n / 4096 < 16
    ensures n == n / 4096 * 4096 + n / 256 % 16 * 256 + n / 16 % 16 * 16 + n % 16
  {
  }

  lemma ReadUnicodeEscape(a: int, b: int, c: int, d: int, rest: Text)
    requires 0 <= a < 16 && 0 <= b < 16 && 0 <= c < 16 && 0 <= d < 16
    ensures ReadUnit([BACKSLASH, 'u' as Unit, Hex(a), Hex(b), Hex(c), Hex(d)] + rest) ==
            Good((a * 4096 + b * 256 + c * 16 + d) as Unit, rest)
  {
    assert ([BACKSLASH, 'u' as Unit, Hex(a), Hex(b), Hex(c), Hex(d)] + rest)[6..] == rest;
  }

  lemma ReadEscapedUnit(u: Unit, rest: Text)
    ensures ReadUnit(EscapeUnit(u) + rest) == Good(u, rest) && EscapeUnit(u)[0] != QUOTE
  {
    if ShortEscape(u) != 0 {
      assert ([BACKSLASH, ShortEscape(u)] + rest)[2..] == rest;
    } else if u < 0x20 || Leading(u) || Trailing(u) {
      var n := u as int;
      HexPlaces(n);
      ReadUnicodeEscape(n / 4096, n / 256 % 16, n / 16 % 16, n % 16, rest);
    } else {
      ReadRawUnit(u, rest);
    }
  }

  lemma ReadRawUnit(u: Unit, rest: Text)
    requires u >= 0x20 && u != BACKSLASH
    ensures ReadUnit([u] + rest) == Good(u, rest)
  {
    Tail(u, rest);
  }

  /** Reading one unit and then the remaining content. */
  lemma ReadContentStep(head: Text, u: Unit, t: Text, tail: Text, rest: Text)
    requires head != [] && head[0] != QUOTE
    requires ReadUnit(head + tail) == Good(u, tail) && ReadContent(tail) == Good(t, rest)
    ensures ReadContent(head + tail) == Good([u] + t, rest)
  {
  }

  /** Every string is read back from its quoted form, whatever follows. */
  lemma {:induction false} ReadContentOf(t: Text, rest: Text)
    ensures ReadContent(Escape(t) + ([QUOTE] + rest)) == Good(t, rest)
    decreases |t|
  {
    var end := [QUOTE] + rest;
    if t == [] {
      assert Escape(t) + end == end;
      Tail(QUOTE, rest);
    } else if |t| > 1 && Leading(t[0]) && Trailing(t[1]) {
      var tail := Escape(t[2..]) + end;
      ReadContentOf(t[2..], rest);
      Assoc([t[0]] + [t[1]], Escape(t[2..]), end);
      Assoc([t[0]], [t[1]], tail);
      assert [t[0], t[1]] == [t[0]] + [t[1]];
      ReadRawUnit(t[1], tail);
      ReadContentStep([t[1]], t[1], t[2..], tail, rest);
      ReadRawUnit(t[0], [t[1]] + tail);
      ReadContentStep([t[0]], t[0], [t[1]] + t[2..], [t[1]] + tail, rest);
      assert t == [t[0]] + ([t[1]] + t[2..]);
    } else {
      var tail := Escape(t[1..]) + end;
      ReadContentOf(t[1..], rest);
      Assoc(EscapeUnit(t[0]), Escape(t[1..]), end);
      ReadEscapedUnit(t[0], tail);
      ReadContentStep(EscapeUnit(t[0]), t[0], t[1..], tail, rest);
      assert t == [t[0]] + t[1..];
    }
  }
}
