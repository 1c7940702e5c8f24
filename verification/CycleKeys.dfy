/** Rotations of a cycle's node list, and the key that identifies a cycle up to rotation. */
module CycleKeys {
  import opened Sequences
  import opened CodeUnits

  const NUL: Unit := 0

  function Rotate(nodes: seq<Text>, k: nat): (r: seq<Text>)
    requires k <= |nodes|
  {
    nodes[k..] + nodes[..k]
  }

  ghost predicate Rotations(a: seq<Text>, b: seq<Text>)
  {
    exists k | 0 <= k <= |a| :: b == Rotate(a, k)
  }

  /** The smallest text among the joins of the first `count` rotations, as the scan keeps it. */
  function BestOf(nodes: seq<Text>, count: nat): Text
    requires 1 <= count <= |nodes|
  {
    if count == 1 then Join(nodes, NUL)
    else
      var rotated := Join(Rotate(nodes, count - 1), NUL);
      var best := BestOf(nodes, count - 1);
      if Less(rotated, best) then rotated else best
  }

  function CanonicalKey(nodes: seq<Text>): Text
    requires nodes != []
  {
    BestOf(nodes, |nodes|)
  }

  /** The loop of the source: the closing node of the chain is dropped, then every rotation is tried. */
  method CanonicalCycle(cycle: seq<Text>) returns (best: Text)
    requires |cycle| >= 2
    ensures best == CanonicalKey(cycle[..|cycle| - 1])
  {
    var nodes := cycle[..|cycle| - 1];
    best := Join(nodes, NUL);
    for index := 1 to |nodes|
      invariant best == BestOf(nodes, index)
    {
      var rotated := Join(nodes[index..] + nodes[..index], NUL);
      if Less(rotated, best) {
        best := rotated;
      }
    }
  }

  /** The key is the join of some rotation, and no rotation joins to a smaller text. */
  lemma {:induction false} BestOfIsLeast(nodes: seq<Text>, count: nat)
    requires 1 <= count <= |nodes|
    ensures exists k | 0 <= k < count :: BestOf(nodes, count) == Join(Rotate(nodes, k), NUL)
    ensures forall k | 0 <= k < count :: !Less(Join(Rotate(nodes, k), NUL), BestOf(nodes, count))
  {
    if count == 1 {
      assert Rotate(nodes, 0) == nodes;
      LessTrichotomy(Join(nodes, NUL), []);
    } else {
      BestOfIsLeast(nodes, count - 1);
      var rotated, best := Join(Rotate(nodes, count - 1), NUL), BestOf(nodes, count - 1);
      LessTrichotomy(rotated, best);
      forall k | 0 <= k < count
        ensures !Less(Join(Rotate(nodes, k), NUL), BestOf(nodes, count))
      {
        var text := Join(Rotate(nodes, k), NUL);
        if Less(text, rotated) && Less(rotated, best) {
          LessTransitive(text, rotated, best);
        }
        LessTrichotomy(text, text);
      }
    }
  }

  lemma RotateTwice(nodes: seq<Text>, j: nat, k: nat)
    requires j <= |nodes| && k <= |nodes|
    ensures Rotate(Rotate(nodes, j), k) ==
            if j + k <= |nodes| then Rotate(nodes, j + k) else Rotate(nodes, j + k - |nodes|)
  {
    var r := Rotate(nodes, j);
    if j + k <= |nodes| {
      assert r[k..] == nodes[j + k..] + nodes[..j];
      assert r[..k] == nodes[j..j + k];
      assert nodes[..j] + nodes[j..j + k] == nodes[..j + k];
      Assoc(nodes[j + k..], nodes[..j], nodes[j..j + k]);
    } else {
      var m := j + k - |nodes|;
      assert r[k..] == nodes[m..j];
      assert r[..k] == nodes[j..] + nodes[..m];
      assert nodes[m..j] + nodes[j..] == nodes[m..];
      Assoc(nodes[m..j], nodes[j..], nodes[..m]);
    }
  }

  lemma RotationsSymmetric(a: seq<Text>, b: seq<Text>)
    requires Rotations(a, b)
    ensures Rotations(b, a)
  {
    var k :| 0 <= k <= |a| && b == Rotate(a, k);
    assert a == Rotate(b, |a| - k);
  }

  lemma RotationsTransitive(a: seq<Text>, b: seq<Text>, c: seq<Text>)
    requires Rotations(a, b) && Rotations(b, c)
    ensures Rotations(a, c)
  {
    var j :| 0 <= j <= |a| && b == Rotate(a, j);
    var k :| 0 <= k <= |b| && c == Rotate(b, k);
    RotateTwice(a, j, k);
  }

  /** The rotation whose join is the key. */
  lemma LeastRotation(nodes: seq<Text>) returns (k: nat)
    requires nodes != []
    ensures k < |nodes| && CanonicalKey(nodes) == Join(Rotate(nodes, k), NUL)
  {
    BestOfIsLeast(nodes, |nodes|);
    k :| 0 <= k < |nodes| && BestOf(nodes, |nodes|) == Join(Rotate(nodes, k), NUL);
  }

  lemma RotationNotBelowKey(nodes: seq<Text>, k: nat)
    requires k < |nodes|
    ensures !Less(Join(Rotate(nodes, k), NUL), CanonicalKey(nodes))
  {
    BestOfIsLeast(nodes, |nodes|);
  }

  /** The key of one list of nodes is not above the key of any rotation of it. */
  lemma KeyNotAbove(a: seq<Text>, b: seq<Text>)
    requires a != [] && Rotations(a, b)
    ensures !Less(CanonicalKey(b), CanonicalKey(a))
  {
    var k := LeastRotation(b);
    var j :| 0 <= j <= |a| && b == Rotate(a, j);
    var m := RotationOfRotation(a, j, k);
    RotationNotBelowKey(a, m);
  }

  lemma RotationOfRotation(nodes: seq<Text>, j: nat, k: nat) returns (m: nat)
    requires nodes != [] && j <= |nodes| && k < |nodes|
    ensures m < |nodes| && Rotate(Rotate(nodes, j), k) == Rotate(nodes, m)
  {
    RotateTwice(nodes, j, k);
    assert Rotate(nodes, |nodes|) == Rotate(nodes, 0);
    m := if j + k < |nodes| then j + k else j + k - |nodes|;
  }

  /** Rotating a cycle does not change its key, whatever the names contain. */
  lemma KeyRotationInvariant(a: seq<Text>, b: seq<Text>)
    requires a != [] && Rotations(a, b)
    ensures CanonicalKey(a) == CanonicalKey(b)
  {
    RotationsSymmetric(a, b);
    KeyNotAbove(a, b);
    KeyNotAbove(b, a);
    LessTrichotomy(CanonicalKey(a), CanonicalKey(b));
  }

  lemma RotateFree(nodes: seq<Text>, k: nat)
    requires Free(nodes, NUL) && k <= |nodes|
    ensures Free(Rotate(nodes, k), NUL)
  {
    forall i | 0 <= i < |nodes|
      ensures NUL !in Rotate(nodes, k)[i]
    {
      assert Rotate(nodes, k)[i] == nodes[if k + i < |nodes| then k + i else k + i - |nodes|];
    }
  }

  lemma SameKeyRotations(a: seq<Text>, b: seq<Text>)
    requires a != [] && b != [] && Free(a, NUL) && Free(b, NUL) && CanonicalKey(a) == CanonicalKey(b)
    ensures Rotations(a, b)
  {
    var j := LeastRotation(a);
    var k := LeastRotation(b);
    RotateFree(a, j);
    RotateFree(b, k);
    JoinInjective(Rotate(a, j), Rotate(b, k), NUL);
    assert Rotations(a, Rotate(a, j)) && Rotations(b, Rotate(b, k));
    RotationsSymmetric(b, Rotate(b, k));
    RotationsTransitive(a, Rotate(a, j), b);
  }

  /** For names without NUL the key identifies the cycle exactly up to rotation. */
  lemma KeyIdentifiesCycle(a: seq<Text>, b: seq<Text>)
    requires a != [] && b != [] && Free(a, NUL) && Free(b, NUL)
    ensures CanonicalKey(a) == CanonicalKey(b) <==> Rotations(a, b)
  {
    if CanonicalKey(a) == CanonicalKey(b) { SameKeyRotations(a, b); }
    if Rotations(a, b) { KeyRotationInvariant(a, b); }
  }

  /** `u` is followed by `v` on the cycle through `nodes`. */
  ghost predicate Follows(nodes: seq<Text>, u: Text, v: Text)
  {
    exists i | 0 <= i < |nodes| :: nodes[i] == u && nodes[if i + 1 < |nodes| then i + 1 else 0] == v
  }

  lemma RotationKeepsFollows(a: seq<Text>, b: seq<Text>, u: Text, v: Text)
    requires Rotations(a, b) && Follows(a, u, v)
    ensures Follows(b, u, v)
  {
    var k :| 0 <= k <= |a| && b == Rotate(a, k);
    var i :| 0 <= i < |a| && a[i] == u && a[if i + 1 < |a| then i + 1 else 0] == v;
    var m := if i >= k then i - k else i - k + |a|;
    assert b[m] == u && b[if m + 1 < |b| then m + 1 else 0] == v;
  }
}
