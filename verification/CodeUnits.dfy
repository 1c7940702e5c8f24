/** Strings as the host language compares them: sequences of 16-bit code units. */
module CodeUnits {
  newtype Unit = u: int | 0 <= u < 0x10000
  type Text = seq<Unit>

  /** The `<` of strings: first difference decides, and a proper prefix comes first. */
  predicate Less(a: Text, b: Text)
  {
    b != [] && (a == [] || a[0] < b[0] || (a[0] == b[0] && Less(a[1..], b[1..])))
  }

  lemma {:induction false} LessTrichotomy(a: Text, b: Text)
    ensures a == b || Less(a, b) || Less(b, a)
    ensures !(Less(a, b) && Less(b, a))
    ensures !Less(a, a)
  {
    if a != [] && b != [] && a[0] == b[0] {
      LessTrichotomy(a[1..], b[1..]);
      assert a == [a[0]] + a[1..] && b == [b[0]] + b[1..];
    }
    if a != [] { LessTrichotomy(a[1..], a[1..]); }
  }

  lemma {:induction false} LessTransitive(a: Text, b: Text, c: Text)
    requires Less(a, b) && Less(b, c)
    ensures Less(a, c)
  {
    if a != [] && a[0] == b[0] && b[0] == c[0] {
      LessTransitive(a[1..], b[1..], c[1..]);
    }
  }

  /** Elements joined by one separator unit. */
  function Join(parts: seq<Text>, separator: Unit): Text
  {
    if parts == [] then []
    else if |parts| == 1 then parts[0]
    else parts[0] + [separator] + Join(parts[1..], separator)
  }

  ghost predicate Free(parts: seq<Text>, separator: Unit)
  {
    forall i | 0 <= i < |parts| :: separator !in parts[i]
  }

  /** Two texts that agree up to and including their first separator have the same first part. */
  lemma FirstPartUnique(a: Text, b: Text, x: Text, y: Text, separator: Unit)
    requires separator !in a && separator !in b
    requires a + [separator] + x == b + [separator] + y
    ensures a == b && x == y
  {
    var s, t := a + [separator] + x, b + [separator] + y;
    assert s[|a|] == separator && t[|b|] == separator;
    assert forall i | 0 <= i < |a| :: s[i] == a[i];
    assert forall i | 0 <= i < |b| :: t[i] == b[i];
    assert |a| == |b|;
    assert a == s[..|a|] && b == t[..|b|];
    assert x == s[|a| + 1..] && y == t[|b| + 1..];
  }

  lemma SeparatorInJoin(parts: seq<Text>, separator: Unit)
    requires parts != [] && Free(parts, separator)
    ensures separator in Join(parts, separator) <==> |parts| > 1
  {
    if |parts| > 1 {
      assert Join(parts, separator)[|parts[0]|] == separator;
    }
  }

  lemma {:induction false} JoinInjective(a: seq<Text>, b: seq<Text>, separator: Unit)
    requires a != [] && b != [] && Free(a, separator) && Free(b, separator)
    requires Join(a, separator) == Join(b, separator)
    ensures a == b
  {
    SeparatorInJoin(a, separator);
    SeparatorInJoin(b, separator);
    if |a| > 1 {
      FirstPartUnique(a[0], b[0], Join(a[1..], separator), Join(b[1..], separator), separator);
      JoinInjective(a[1..], b[1..], separator);
      assert a == [a[0]] + a[1..] && b == [b[0]] + b[1..];
    } else {
      assert a == [a[0]] && b == [b[0]];
    }
  }
}
