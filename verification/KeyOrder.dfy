/** Sorting by key, as `Object.keys(value).sort()` orders an object's fields. */
module KeyOrder {
  import opened CodeUnits

  datatype Keyed<T> = Keyed(key: Text, value: T)

  function Insert<T>(x: Keyed<T>, xs: seq<Keyed<T>>): seq<Keyed<T>>
  {
    if xs == [] || !Less(xs[0].key, x.key) then [x] + xs else [xs[0]] + Insert(x, xs[1..])
  }

  function Sort<T>(xs: seq<Keyed<T>>): seq<Keyed<T>>
  {
    if xs == [] then [] else Insert(xs[0], Sort(xs[1..]))
  }

  function MapValues<A, B>(f: A -> B, xs: seq<Keyed<A>>): seq<Keyed<B>>
  {
    seq(|xs|, i requires 0 <= i < |xs| => Keyed(xs[i].key, f(xs[i].value)))
  }

  ghost predicate UniqueKeys<T>(xs: seq<Keyed<T>>)
  {
    forall i, j | 0 <= i < j < |xs| :: xs[i].key != xs[j].key
  }

  ghost predicate Ascending<T>(xs: seq<Keyed<T>>)
  {
    forall i, j | 0 <= i < j < |xs| :: Less(xs[i].key, xs[j].key)
  }

  lemma {:induction false} InsertMap<A, B>(f: A -> B, x: Keyed<A>, xs: seq<Keyed<A>>)
    ensures Insert(Keyed(x.key, f(x.value)), MapValues(f, xs)) == MapValues(f, Insert(x, xs))
  {
    if !(xs == [] || !Less(xs[0].key, x.key)) {
      InsertMap(f, x, xs[1..]);
      assert MapValues(f, xs)[1..] == MapValues(f, xs[1..]);
    }
  }

  /** Sorting looks at keys only. */
  lemma {:induction false} SortMap<A, B>(f: A -> B, xs: seq<Keyed<A>>)
    ensures Sort(MapValues(f, xs)) == MapValues(f, Sort(xs))
  {
    if xs != [] {
      SortMap(f, xs[1..]);
      assert MapValues(f, xs)[1..] == MapValues(f, xs[1..]);
      InsertMap(f, xs[0], Sort(xs[1..]));
    }
  }

  lemma {:induction false} InsertMembers<T(!new)>(x: Keyed<T>, xs: seq<Keyed<T>>)
    ensures |Insert(x, xs)| == |xs| + 1
    ensures forall y :: y in Insert(x, xs) <==> y == x || y in xs
  {
    if !(xs == [] || !Less(xs[0].key, x.key)) {
      InsertMembers(x, xs[1..]);
      assert xs == [xs[0]] + xs[1..];
    }
  }

  lemma {:induction false} SortMembers<T(!new)>(xs: seq<Keyed<T>>)
    ensures |Sort(xs)| == |xs|
    ensures forall y :: y in Sort(xs) <==> y in xs
  {
    if xs != [] {
      SortMembers(xs[1..]);
      InsertMembers(xs[0], Sort(xs[1..]));
      assert xs == [xs[0]] + xs[1..];
    }
  }

  lemma {:induction false} InsertAscending<T(!new)>(x: Keyed<T>, xs: seq<Keyed<T>>)
    requires Ascending(xs) && forall y | y in xs :: y.key != x.key
    ensures Ascending(Insert(x, xs))
  {
    InsertMembers(x, xs);
    if xs == [] {
    } else if !Less(xs[0].key, x.key) {
      LessTrichotomy(xs[0].key, x.key);
      assert xs[0] in xs;
      forall j | 0 <= j < |xs|
        ensures Less(x.key, xs[j].key)
      {
        if j > 0 { LessTransitive(x.key, xs[0].key, xs[j].key); }
      }
    } else {
      InsertAscending(x, xs[1..]);
      InsertMembers(x, xs[1..]);
      var rest := Insert(x, xs[1..]);
      forall j | 0 <= j < |rest|
        ensures Less(xs[0].key, rest[j].key)
      {
        assert rest[j] in rest;
        if rest[j] != x {
          var k :| 1 <= k < |xs| && xs[k] == rest[j];
          assert Less(xs[0].key, xs[k].key);
        }
      }
    }
  }

  lemma {:induction false} SortAscending<T(!new)>(xs: seq<Keyed<T>>)
    requires UniqueKeys(xs)
    ensures Ascending(Sort(xs))
  {
    if xs != [] {
      SortAscending(xs[1..]);
      SortMembers(xs[1..]);
      forall y | y in Sort(xs[1..])
        ensures y.key != xs[0].key
      {
        var k :| 1 <= k < |xs| && xs[k] == y;
        assert xs[0].key != xs[k].key;
      }
      InsertAscending(xs[0], Sort(xs[1..]));
    }
  }

  /** Two ascending sequences with the same members are the same sequence. */
  lemma {:induction false} AscendingUnique<T(!new)>(xs: seq<Keyed<T>>, ys: seq<Keyed<T>>)
    requires Ascending(xs) && Ascending(ys)
    requires forall y :: y in xs <==> y in ys
    ensures xs == ys
  {
    if xs == [] {
      assert forall y :: y !in xs;
      assert forall k | 0 <= k < |ys| :: ys[k] in ys;
    } else {
      assert xs[0] in ys;
      assert ys != [];
      assert ys[0] in xs;
      LessTrichotomy(xs[0].key, ys[0].key);
      var i :| 0 <= i < |ys| && ys[i] == xs[0];
      var j :| 0 <= j < |xs| && xs[j] == ys[0];
      assert i == 0 || Less(ys[0].key, ys[i].key);
      assert j == 0 || Less(xs[0].key, xs[j].key);
      assert xs[0] == ys[0];
      forall y
        ensures y in xs[1..] <==> y in ys[1..]
      {
        TailMembers(xs, y);
        TailMembers(ys, y);
      }
      AscendingUnique(xs[1..], ys[1..]);
    }
  }

  lemma TailMembers<T(!new)>(xs: seq<Keyed<T>>, y: Keyed<T>)
    requires xs != [] && Ascending(xs)
    ensures y in xs[1..] <==> y in xs && y != xs[0]
  {
    LessTrichotomy(xs[0].key, xs[0].key);
    assert xs == [xs[0]] + xs[1..];
    if y in xs[1..] {
      var k :| 1 <= k < |xs| && xs[k] == y;
      assert Less(xs[0].key, xs[k].key);
    }
  }

  /** Sorting two listings of the same fields gives the same sequence. */
  lemma SortCanonical<T(!new)>(xs: seq<Keyed<T>>, ys: seq<Keyed<T>>)
    requires UniqueKeys(xs) && UniqueKeys(ys)
    requires forall y :: y in xs <==> y in ys
    ensures Sort(xs) == Sort(ys)
  {
    SortMembers(xs);
    SortMembers(ys);
    SortAscending(xs);
    SortAscending(ys);
    AscendingUnique(Sort(xs), Sort(ys));
  }
}
