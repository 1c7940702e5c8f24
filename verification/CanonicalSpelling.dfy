/** Which characters the canonical form is written in: strings, numbers, key order, and a whole document. */
module CanonicalSpelling {
  import opened Sequences
  import opened CodeUnits
  import opened Digits
  import opened KeyOrder
  import opened JsonNumbers
  import opened JsonStrings
  import opened CanonicalJson

  predicate Ascii(s: string)
  {
    forall i | 0 <= i < |s| :: s[i] as int < 128
  }

  function Units(s: string): (t: Text)
    requires Ascii(s)
    ensures |t| == |s| && forall i | 0 <= i < |s| :: t[i] as int == s[i] as int
  {
    seq(|s|, i requires 0 <= i < |s| => s[i] as int as Unit)
  }

  // ----- The order of keys

  /** The first place where two texts differ. */
  ghost predicate DifferAt(a: Text, b: Text, k: nat)
  {
    k <= |a| && k < |b| && a[..k] == b[..k] && (k < |a| ==> a[k] < b[k])
  }

  ghost predicate Precedes(a: Text, b: Text)
  {
    exists k: nat :: DifferAt(a, b, k)
  }

  lemma FirstAlike(a: Text, b: Text, k: nat)
    requires k > 0 && DifferAt(a, b, k)
    ensures a != [] && b != [] && a[0] == b[0]
  {
    assert a[..k][0] == a[0] && b[..k][0] == b[0];
  }

  /** A text is less than another exactly when it is a proper prefix, or has the smaller unit where they first differ. */
  lemma {:induction false} LessMeans(a: Text, b: Text)
    ensures Less(a, b) <==> Precedes(a, b)
  {
    if a == [] || b == [] || a[0] != b[0] {
      if b != [] && (a == [] || a[0] < b[0]) { assert DifferAt(a, b, 0); }
      if Precedes(a, b) {
        var k: nat :| DifferAt(a, b, k);
        if k > 0 { FirstAlike(a, b, k); }
      }
    } else {
      LessMeans(a[1..], b[1..]);
      if k: nat :| DifferAt(a[1..], b[1..], k) {
        assert a[..k + 1] == [a[0]] + a[1..][..k] && b[..k + 1] == [b[0]] + b[1..][..k];
        assert DifferAt(a, b, k + 1);
      }
      if k: nat :| DifferAt(a, b, k) {
        assert k > 0;
        assert a[1..][..k - 1] == a[..k][1..] && b[1..][..k - 1] == b[..k][1..];
        assert DifferAt(a[1..], b[1..], k - 1);
      }
    }
  }

  /** At every depth, keys ascend. */
  ghost predicate Arranged(v: Value)
  {
    match v
    case Array(items) => forall i | 0 <= i < |items| :: Arranged(items[i])
    case Object(fields) =>
      && (forall i, j | 0 <= i < j < |fields| :: Precedes(fields[i].key, fields[j].key))
      && forall i | 0 <= i < |fields| :: Arranged(fields[i].value)
    case _ => true
  }

  lemma {:induction false} NormArranges(v: Value)
    requires WellFormed(v)
    ensures Arranged(Norm(v))
  {
    match v
    case Array(items) =>
      forall i | 0 <= i < |items| { NormArranges(items[i]); }
    case Object(fields) =>
      forall i | 0 <= i < |fields| { NormArranges(fields[i].value); }
      var normed := MapValues(Norm, fields);
      var sorted := Sort(normed);
      NormObject(fields);
      SortAscending(normed);
      SortMembers(normed);
      forall i, j | 0 <= i < j < |sorted| ensures Precedes(sorted[i].key, sorted[j].key) {
        LessMeans(sorted[i].key, sorted[j].key);
      }
      forall i | 0 <= i < |sorted| ensures Arranged(sorted[i].value) {
        assert sorted[i] in normed;
        var j :| 0 <= j < |normed| && normed[j] == sorted[i];
      }
    case _ =>
  }

  // ----- Strings

  /** Units that stand for themselves: no control character, quote, backslash or surrogate. */
  predicate PlainUnit(u: Unit)
  {
    u as int >= 32 && u as int != 34 && u as int != 92 && !(0xD800 <= u as int <= 0xDFFF)
  }

  predicate High(t: Text, i: int)
  {
    0 <= i < |t| && 0xD800 <= t[i] as int <= 0xDBFF
  }

  predicate Low(t: Text, i: int)
  {
    0 <= i < |t| && 0xDC00 <= t[i] as int <= 0xDFFF
  }

  /** A unit that stands for itself, or one of a pair of surrogates. */
  predicate Kept(t: Text, i: nat)
    requires i < |t|
  {
    PlainUnit(t[i]) || (High(t, i) && Low(t, i + 1)) || (High(t, i - 1) && Low(t, i))
  }

  ghost predicate AllKept(t: Text)
  {
    forall i | 0 <= i < |t| :: Kept(t, i)
  }

  lemma EscapeUnitLength(u: Unit)
    ensures |EscapeUnit(u)| == 1 <==> PlainUnit(u)
    ensures PlainUnit(u) ==> EscapeUnit(u) == [u]
    ensures |EscapeUnit(u)| >= 1
  {
  }

  lemma {:induction false} EscapeLength(t: Text)
    ensures |Escape(t)| >= |t|
    decreases |t|
  {
    if t != [] {
      if |t| > 1 && Leading(t[0]) && Trailing(t[1]) {
        EscapeLength(t[2..]);
      } else {
        EscapeUnitLength(t[0]);
        EscapeLength(t[1..]);
      }
    }
  }

  lemma KeptAfter(t: Text, n: nat)
    requires 0 < n <= |t| && !(High(t, n - 1) && Low(t, n)) && forall i | 0 <= i < n :: Kept(t, i)
    ensures AllKept(t) <==> AllKept(t[n..])
  {
    var rest := t[n..];
    forall i | n <= i < |t|
      ensures Kept(t, i) <==> Kept(rest, i - n)
    {
      assert rest[i - n] == t[i];
      assert High(t, i) <==> High(rest, i - n);
      assert Low(t, i) <==> Low(rest, i - n);
      assert Low(t, i + 1) <==> Low(rest, i - n + 1);
      if i > n { assert High(t, i - 1) <==> High(rest, i - n - 1); }
    }
    if AllKept(rest) {
      forall i | 0 <= i < |t| ensures Kept(t, i) { if i >= n { assert Kept(rest, i - n); } }
    }
    if AllKept(t) {
      forall i | 0 <= i < |rest| ensures Kept(rest, i) { assert Kept(t, i + n); }
    }
  }

  /** A string is written between quotes as it is exactly when all its units stand for themselves or are proper pairs. */
  lemma {:induction false} WrittenAsItself(t: Text)
    ensures Escape(t) == t <==> AllKept(t)
    decreases |t|
  {
    if t == [] {
    } else if |t| > 1 && Leading(t[0]) && Trailing(t[1]) {
      WrittenAsItself(t[2..]);
      assert Kept(t, 0) && Kept(t, 1);
      KeptAfter(t, 2);
      assert t == [t[0], t[1]] + t[2..];
      SamePrefix([t[0], t[1]], Escape(t[2..]), t[2..]);
    } else {
      EscapeUnitLength(t[0]);
      EscapeLength(t[1..]);
      if PlainUnit(t[0]) {
        WrittenAsItself(t[1..]);
        assert Kept(t, 0);
        KeptAfter(t, 1);
        assert t == [t[0]] + t[1..];
        SamePrefix([t[0]], Escape(t[1..]), t[1..]);
      } else {
        assert |Escape(t)| > |t|;
        assert !Kept(t, 0);
      }
    }
  }

  lemma SamePrefix(p: Text, a: Text, b: Text)
    ensures p + a == p + b <==> a == b
  {
    assert (p + a)[|p|..] == a && (p + b)[|p|..] == b;
  }

  function HexDigit(n: int): (c: char)
    requires 0 <= n < 16
    ensures c as int < 128
  {
    "0123456789abcdef"[n]
  }

  lemma HexSpelled(n: int)
    requires 0 <= n < 16
    ensures Hex(n) as int == HexDigit(n) as int
  {
  }

  /** The other units with a name are written with a backslash and a letter. */
  lemma NamedEscapes()
    ensures EscapeUnit(8) == Units("\\b") && EscapeUnit(9) == Units("\\t") && EscapeUnit(10) == Units("\\n")
    ensures EscapeUnit(12) == Units("\\f") && EscapeUnit(13) == Units("\\r")
    ensures EscapeUnit(34) == Units("\\\"") && EscapeUnit(92) == Units("\\\\")
  {
  }

  /** All the rest by themselves are written with a backslash, "u" and four lower-case hexadecimal digits. */
  lemma NumberedEscapes(u: Unit)
    requires !PlainUnit(u) && u as int !in [8, 9, 10, 12, 13, 34, 92]
    ensures var n := u as int;
            EscapeUnit(u) == Units(['\\', 'u', HexDigit(n / 4096), HexDigit(n / 256 % 16), HexDigit(n / 16 % 16), HexDigit(n % 16)])
  {
    var n := u as int;
    HexSpelled(n / 4096);
    HexSpelled(n / 256 % 16);
    HexSpelled(n / 16 % 16);
    HexSpelled(n % 16);
    assert ShortEscape(u) == 0;
  }

  // ----- Samples

  /** Zeros, a whole number and a fraction. */
  lemma PlainNumbers()
    ensures NumberText(Decimal(false, [], 0)) == Units("0") && NumberText(Decimal(true, [], 0)) == Units("-0")
    ensures NumberText(Decimal(false, [1, 2], 2)) == Units("12") && NumberText(Decimal(true, [1, 2, 5], 1)) == Units("-1.25")
  {
    assert Layout([1, 2], 2) == Numeral([1, 2], [], 0);
    assert Layout([1, 2, 5], 1) == Numeral([1], [2, 5], 0);
  }

  lemma Written(d: Decimal, whole: seq<Digit>, fraction: seq<Digit>, exponent: int, e: seq<Digit>)
    requires Layout(d.digits, d.point) == Numeral(whole, fraction, exponent) && exponent != 0
    requires ToDigits(if exponent < 0 then -exponent else exponent) == e
    ensures NumberText(d) == Sign(d.negative) + (Codes(whole) + FractionText(fraction) +
                             ([LETTER_E, if exponent < 0 then MINUS else PLUS] + Codes(e)))
  {
  }

  /** The two sides of the lower threshold, and a small number. */
  lemma SmallNumbers()
    ensures NumberText(Decimal(false, [1], -5)) == Units("0.000001") && NumberText(Decimal(false, [1], -6)) == Units("1e-7")
    ensures NumberText(Decimal(false, [1, 2, 3], -17)) == Units("1.23e-18")
  {
    assert Zeros(5) + [1] == [0, 0, 0, 0, 0, 1];
    assert Layout([1], -5) == Numeral([0], [0, 0, 0, 0, 0, 1], 0);
    assert ToDigits(7) == [7] && ToDigits(18) == [1, 8];
    Written(Decimal(false, [1], -6), [1], [], -7, [7]);
    Written(Decimal(false, [1, 2, 3], -17), [1], [2, 3], -18, [1, 8]);
  }

  /** The words. */
  lemma Words()
    ensures Print(Null) == Units("null") && Print(Bool(true)) == Units("true") && Print(Bool(false)) == Units("false")
  {
  }

  lemma LetterQuoted()
    ensures Quote(Units("a")) == Units("\"a\"")
  {
    WrittenAsItself(Units("a"));
  }

  /** A field. */
  lemma FieldSample()
    ensures Print(Object([Keyed(Units("a"), Bool(true))])) == Units("{\"a\":true}")
  {
    var fields := [Keyed(Units("a"), Bool(true))];
    LetterQuoted();
    assert fields[1..] == [] && PrintFields(fields) == [Label(Units("a"), TRUE_TEXT)];
    assert Label(Units("a"), TRUE_TEXT) == Units("\"a\"") + ([COLON] + TRUE_TEXT);
  }

  // ----- Errors

  /** Some part of the value is the given one. */
  ghost predicate HasPart(v: Value, part: Value)
    decreases v
  {
    || v == part
    || (v.Array? && exists i | 0 <= i < |v.items| :: HasPart(v.items[i], part))
    || (v.Object? && exists i | 0 <= i < |v.fields| :: HasPart(v.fields[i].value, part))
  }

  function PartOf(e: Error): Value
  {
    match e
    case UndefinedValue => Undefined
    case NonFiniteNumber => NonFinite
  }

  lemma {:induction false} CollectedError(rs: seq<Result<Text>>) returns (i: nat)
    requires Collect(rs).Err?
    ensures i < |rs| && rs[i] == Err(Collect(rs).error) && forall j | 0 <= j < i :: rs[j].Ok?
  {
    if rs[0].Err? {
      i := 0;
    } else {
      var later := CollectedError(rs[1..]);
      i := later + 1;
      forall j | 0 <= j < i ensures rs[j].Ok? { if j > 0 { assert rs[j] == rs[1..][j - 1]; } }
    }
  }

  lemma {:induction false} LabelAt(entries: seq<Keyed<Result<Text>>>, i: nat)
    ensures |LabelAll(entries)| == |entries|
    ensures i < |entries| ==> LabelAll(entries)[i] == LabelResult(entries[i])
  {
    if entries != [] { LabelAt(entries[1..], if i > 0 then i - 1 else 0); }
  }

  /** The error names something that the value really has. */
  lemma {:induction false} ErrorNamesAPart(v: Value)
    requires Canonical(v).Err?
    ensures HasPart(v, PartOf(Canonical(v).error))
  {
    match v
    case Array(items) =>
      var i := CollectedError(seq(|items|, i requires 0 <= i < |items| => Canonical(items[i])));
      ErrorNamesAPart(items[i]);
    case Object(fields) =>
      SortedEntries(fields);
      var entries := MapValues(Canonical, Sort(fields));
      LabelAt(entries, 0);
      var i := CollectedError(LabelAll(entries));
      LabelAt(entries, i);
      SortMembers(fields);
      assert Sort(fields)[i] in fields;
      var j :| 0 <= j < |fields| && fields[j] == Sort(fields)[i];
      ErrorNamesAPart(fields[j].value);
    case _ =>
  }
}
