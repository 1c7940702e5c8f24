/** Splitting and joining text at a separator character, and decimal numerals as text. */
module Strings {
  import opened Sequences
  import opened Digits

  function Split(s: string, separator: char): (parts: seq<string>)
    ensures parts != []
  {
    if s == "" then [""]
    else if s[0] == separator then [""] + Split(s[1..], separator)
    else
      var parts := Split(s[1..], separator);
      [[s[0]] + parts[0]] + parts[1..]
  }

  function Join(parts: seq<string>, separator: char): string
  {
    if parts == [] then ""
    else if |parts| == 1 then parts[0]
    else parts[0] + [separator] + Join(parts[1..], separator)
  }

  lemma {:induction false} SplitFirst(part: string, rest: string, separator: char)
    requires separator !in part
    ensures Split(part + ([separator] + rest), separator) == [part] + Split(rest, separator)
  {
    var s := part + ([separator] + rest);
    if part == "" {
      assert s == [separator] + rest;
      assert s[1..] == rest;
    } else {
      assert s[1..] == part[1..] + ([separator] + rest);
      SplitFirst(part[1..], rest, separator);
      assert [part[0]] + part[1..] == part;
      Tail(part[1..], Split(rest, separator));
    }
  }

  lemma {:induction false} SplitLast(part: string, separator: char)
    requires separator !in part
    ensures Split(part, separator) == [part]
  {
    if part != "" {
      SplitLast(part[1..], separator);
      assert [part[0]] + part[1..] == part;
    }
  }

  lemma {:induction false} SplitJoined(parts: seq<string>, separator: char)
    requires parts != [] && forall i | 0 <= i < |parts| :: separator !in parts[i]
    ensures Split(Join(parts, separator), separator) == parts
  {
    if |parts| == 1 {
      SplitLast(parts[0], separator);
      assert parts == [parts[0]];
    } else {
      SplitJoined(parts[1..], separator);
      SplitFirst(parts[0], Join(parts[1..], separator), separator);
      Assoc(parts[0], [separator], Join(parts[1..], separator));
      assert [parts[0]] + parts[1..] == parts;
    }
  }

  predicate StartsWith(s: string, prefix: string)
  {
    |prefix| <= |s| && s[..|prefix|] == prefix
  }

  lemma PrefixOf(prefix: string, rest: string)
    ensures StartsWith(prefix + rest, prefix) && (prefix + rest)[|prefix|..] == rest
  {
  }

  predicate IsDigit(c: char) { '0' <= c <= '9' }

  function DigitChar(d: Digit): (c: char)
    ensures IsDigit(c)
  {
    ('0' as int + d as int) as char
  }

  function DigitOf(c: char): Digit
    requires IsDigit(c)
  {
    (c as int - '0' as int) as Digit
  }

  predicate AllDigits(s: string)
  {
    forall c | c in s :: IsDigit(c)
  }

  function Chars(ds: seq<Digit>): (s: string)
    ensures |s| == |ds| && AllDigits(s)
  {
    if ds == [] then "" else Chars(ds[..|ds| - 1]) + [DigitChar(ds[|ds| - 1])]
  }

  /** The decimal text of a number. */
  function NumText(n: nat): string
  {
    Chars(ToDigits(n))
  }

  function NumValue(s: string): nat
    requires AllDigits(s)
  {
    if s == "" then 0 else NumValue(s[..|s| - 1]) * 10 + DigitOf(s[|s| - 1]) as nat
  }

  lemma {:induction false} CharsValue(ds: seq<Digit>)
    ensures NumValue(Chars(ds)) == FromDigits(ds)
  {
    if ds != [] {
      CharsValue(ds[..|ds| - 1]);
      var s := Chars(ds);
      assert s[..|s| - 1] == Chars(ds[..|ds| - 1]);
    }
  }

  lemma NumRoundTrip(n: nat)
    ensures NumText(n) != "" && AllDigits(NumText(n)) && NumValue(NumText(n)) == n
  {
    CharsValue(ToDigits(n));
    DigitsRoundTrip(n);
  }
}
