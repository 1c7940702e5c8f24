/** The coloured depth-first search that reports import cycles. */
module ImportCycles {
  import opened CodeUnits
  import opened CycleKeys

  type Graph = map<Text, seq<Text>>
  datatype Mark = OnStack | Done

  /** An import counts as an edge only when its target is one of the analysed files. */
  predicate Edge(g: Graph, u: Text, v: Text)
  {
    u in g && v in g && v in g[u]
  }

  ghost predicate Distinct(s: seq<Text>)
  {
    forall i, j | 0 <= i < j < |s| :: s[i] != s[j]
  }

  ghost predicate ClosedWalk(g: Graph, c: seq<Text>)
  {
    |c| >= 2 && c[0] == c[|c| - 1] && forall i | 0 <= i < |c| - 1 :: Edge(g, c[i], c[i + 1])
  }

  /** A closed walk that meets no file twice. */
  ghost predicate ElementaryCycle(g: Graph, c: seq<Text>)
  {
    ClosedWalk(g, c) && Distinct(c[..|c| - 1])
  }

  ghost predicate NulFree(g: Graph)
  {
    forall u | u in g :: NUL !in u
  }

  /** The chain reported for a cycle, without the repeated node at its end. */
  function Nodes(c: seq<Text>): seq<Text>
    requires c != []
  {
    c[..|c| - 1]
  }

  /** Some cycle is reported, and with NUL-free names one that uses the edge from u to v. */
  ghost predicate Covered(g: Graph, issues: seq<seq<Text>>, u: Text, v: Text)
  {
    issues != [] && (NulFree(g) ==> exists c | c in issues && c != [] :: Follows(Nodes(c), u, v))
  }

  ghost predicate Precedes(finished: seq<Text>, v: Text, u: Text)
  {
    exists i, j | 0 <= i < j < |finished| :: finished[i] == v && finished[j] == u
  }

  /** The key of a chain with at least one edge. */
  function KeyOf(c: seq<Text>): Text
  {
    if |c| < 2 then [] else CanonicalKey(Nodes(c))
  }

  ghost predicate Reports(g: Graph, reported: set<Text>, issues: seq<seq<Text>>)
  {
    && (forall c | c in issues :: ElementaryCycle(g, c))
    && (forall c | c in issues :: KeyOf(c) in reported)
    && (forall key | key in reported :: exists c | c in issues :: KeyOf(c) == key)
    && KeysDiffer(issues)
  }

  ghost predicate KeysDiffer(issues: seq<seq<Text>>)
  {
    forall i, j | 0 <= i < j < |issues| :: KeyOf(issues[i]) != KeyOf(issues[j])
  }

  lemma ReportsDiffer(g: Graph, reported: set<Text>, issues: seq<seq<Text>>)
    requires Reports(g, reported, issues)
    ensures forall k | 0 <= k < |issues| :: ElementaryCycle(g, issues[k])
    ensures forall i, j | 0 <= i < j < |issues| ::
              issues[i] != [] && issues[j] != [] && !Rotations(Nodes(issues[i]), Nodes(issues[j]))
  {
    forall i, j | 0 <= i < j < |issues|
      ensures issues[i] != [] && issues[j] != [] && !Rotations(Nodes(issues[i]), Nodes(issues[j]))
    {
      assert ElementaryCycle(g, issues[i]) && ElementaryCycle(g, issues[j]);
      assert KeyOf(issues[i]) != KeyOf(issues[j]);
      if Rotations(Nodes(issues[i]), Nodes(issues[j])) { KeyRotationInvariant(Nodes(issues[i]), Nodes(issues[j])); }
    }
  }

  lemma AddReport(g: Graph, reported: set<Text>, issues: seq<seq<Text>>, cycle: seq<Text>)
    requires Reports(g, reported, issues) && ElementaryCycle(g, cycle)
    requires KeyOf(cycle) !in reported
    ensures Reports(g, reported + {KeyOf(cycle)}, issues + [cycle])
  {
    var next := issues + [cycle];
    forall i, j | 0 <= i < j < |next|
      ensures KeyOf(next[i]) != KeyOf(next[j])
    {
      assert next[i] == issues[i] && next[i] in issues;
      if j < |issues| { assert next[j] == issues[j]; }
    }
    assert cycle in next;
    forall key | key in reported
      ensures exists c | c in next :: KeyOf(c) == key
    {
      var c :| c in issues && KeyOf(c) == key;
      assert c in next;
    }
  }

  /** The stack is the path of files marked OnStack. */
  ghost predicate OnPath(g: Graph, state: map<Text, Mark>, stack: seq<Text>)
  {
    && state.Keys <= g.Keys
    && Distinct(stack)
    && (forall u | u in stack :: u in state && state[u] == OnStack)
    && (forall u | u in state && state[u] == OnStack :: u in stack)
    && (forall i | 0 <= i < |stack| - 1 :: Edge(g, stack[i], stack[i + 1]))
  }

  /** The finished files are those marked Done. */
  ghost predicate FinishedMarks(state: map<Text, Mark>, finished: seq<Text>)
  {
    && Distinct(finished)
    && (forall u | u in finished :: u in state && state[u] == Done)
    && (forall u | u in state && state[u] == Done :: u in finished)
  }

  /** Every import of a finished file was finished before it, or belongs to a reported cycle. */
  ghost predicate Explained(g: Graph, finished: seq<Text>, issues: seq<seq<Text>>)
  {
    forall u, v | u in finished && Edge(g, u, v) :: Precedes(finished, v, u) || Covered(g, issues, u, v)
  }

  lemma CoveredGrows(g: Graph, issues: seq<seq<Text>>, more: seq<seq<Text>>, u: Text, v: Text)
    requires issues <= more && Covered(g, issues, u, v)
    ensures Covered(g, more, u, v)
  {
    assert forall c | c in issues :: c in more;
  }

  lemma ExplainedGrows(g: Graph, finished: seq<Text>, issues: seq<seq<Text>>, more: seq<seq<Text>>)
    requires issues <= more && Explained(g, finished, issues)
    ensures Explained(g, finished, more)
  {
    forall u, v | u in finished && Edge(g, u, v)
      ensures Precedes(finished, v, u) || Covered(g, more, u, v)
    {
      if !Precedes(finished, v, u) { CoveredGrows(g, issues, more, u, v); }
    }
  }

  /** The imports of `file` looked at so far lead to finished files or to reported cycles. */
  ghost predicate Settled(g: Graph, state: map<Text, Mark>, issues: seq<seq<Text>>, file: Text, targets: seq<Text>)
  {
    forall v | v in targets && v in g :: (v in state && state[v] == Done) || Covered(g, issues, file, v)
  }

  ghost predicate Later(state: map<Text, Mark>, next: map<Text, Mark>)
  {
    forall u | u in state :: u in next && next[u] == state[u]
  }

  lemma SettledGrows(g: Graph, state: map<Text, Mark>, issues: seq<seq<Text>>, next: map<Text, Mark>,
                     more: seq<seq<Text>>, file: Text, targets: seq<Text>, target: Text)
    requires Settled(g, state, issues, file, targets) && Later(state, next) && issues <= more
    requires target in g ==> (target in next && next[target] == Done) || Covered(g, more, file, target)
    ensures Settled(g, next, more, file, targets + [target])
  {
    forall v | v in targets + [target] && v in g
      ensures (v in next && next[v] == Done) || Covered(g, more, file, v)
    {
      if v in targets && !(v in state && state[v] == Done) {
        CoveredGrows(g, issues, more, file, v);
      }
    }
  }

  /** An edge from the top of the stack down to stack[start] closes an elementary cycle. */
  lemma BackEdgeCloses(g: Graph, state: map<Text, Mark>, stack: seq<Text>, start: nat, target: Text)
    requires OnPath(g, state, stack) && start < |stack| && stack[start] == target
    requires Edge(g, stack[|stack| - 1], target)
    ensures var cycle := stack[start..] + [target];
            ElementaryCycle(g, cycle) && Nodes(cycle) == stack[start..] &&
            Follows(Nodes(cycle), stack[|stack| - 1], target)
  {
    var cycle := stack[start..] + [target];
    var nodes := stack[start..];
    assert Nodes(cycle) == nodes;
    assert nodes[|nodes| - 1] == stack[|stack| - 1];
    forall i | 0 <= i < |cycle| - 1
      ensures Edge(g, cycle[i], cycle[i + 1])
    {
      assert cycle[i] == stack[start + i];
      if i < |nodes| - 1 { assert cycle[i + 1] == stack[start + i + 1]; }
    }
  }

  lemma CycleNodesAreFiles(g: Graph, c: seq<Text>)
    requires ElementaryCycle(g, c) && NulFree(g)
    ensures Free(Nodes(c), NUL)
  {
    forall i | 0 <= i < |Nodes(c)|
      ensures NUL !in Nodes(c)[i]
    {
      assert Edge(g, c[i], c[i + 1]);
    }
  }

  /** A cycle whose key is already reported has all its edges on the cycle reported under that key. */
  lemma AlreadyReported(g: Graph, reported: set<Text>, issues: seq<seq<Text>>, cycle: seq<Text>, u: Text, v: Text)
    requires Reports(g, reported, issues) && ElementaryCycle(g, cycle)
    requires CanonicalKey(Nodes(cycle)) in reported && Follows(Nodes(cycle), u, v)
    ensures Covered(g, issues, u, v)
  {
    var c :| c in issues && c != [] && Nodes(c) != [] && CanonicalKey(Nodes(c)) == CanonicalKey(Nodes(cycle));
    if NulFree(g) {
      CycleNodesAreFiles(g, cycle);
      CycleNodesAreFiles(g, c);
      KeyIdentifiesCycle(Nodes(cycle), Nodes(c));
      RotationKeepsFollows(Nodes(cycle), Nodes(c), u, v);
    }
  }

  lemma Finish(g: Graph, finished: seq<Text>, issues: seq<seq<Text>>, file: Text)
    requires Explained(g, finished, issues)
    requires forall v | Edge(g, file, v) :: v in finished || Covered(g, issues, file, v)
    ensures Explained(g, finished + [file], issues)
  {
    var next := finished + [file];
    forall u, v | u in next && Edge(g, u, v)
      ensures Precedes(next, v, u) || Covered(g, issues, u, v)
    {
      if u in finished && Precedes(finished, v, u) {
        var i, j :| 0 <= i < j < |finished| && finished[i] == v && finished[j] == u;
        assert next[i] == v && next[j] == u;
      } else if u == file && v in finished {
        var i :| 0 <= i < |finished| && finished[i] == v;
        assert next[i] == v && next[|finished|] == u;
      }
    }
  }

  lemma Push(g: Graph, state: map<Text, Mark>, stack: seq<Text>, file: Text)
    requires OnPath(g, state, stack) && file in g && file !in state
    requires stack != [] ==> Edge(g, stack[|stack| - 1], file)
    ensures OnPath(g, state[file := OnStack], stack + [file])
  {
  }

  lemma Pop(g: Graph, state: map<Text, Mark>, stack: seq<Text>, file: Text)
    requires OnPath(g, state, stack + [file])
    ensures OnPath(g, state[file := Done], stack)
  {
    var path := stack + [file];
    assert forall i | 0 <= i < |stack| :: path[i] == stack[i];
    assert path[|stack|] == file;
  }

  lemma FinishFile(g: Graph, state: map<Text, Mark>, finished: seq<Text>, issues: seq<seq<Text>>,
                   stack: seq<Text>, file: Text)
    requires OnPath(g, state, stack + [file]) && FinishedMarks(state, finished)
    requires Explained(g, finished, issues)
    requires file in g && Settled(g, state, issues, file, g[file])
    ensures OnPath(g, state[file := Done], stack)
    ensures FinishedMarks(state[file := Done], finished + [file])
    ensures Explained(g, finished + [file], issues)
    ensures (stack + [file])[..|stack|] == stack
  {
    Finish(g, finished, issues, file);
    Pop(g, state, stack, file);
    assert (stack + [file])[|stack|] == file;
    assert file in stack + [file];
    assert file !in finished;
  }

  class CycleFinder {
    const graph: Graph
    var state: map<Text, Mark>
    var stack: seq<Text>
    var reported: set<Text>
    var issues: seq<seq<Text>>
    /** Files in the order in which their visits ended. */
    ghost var finished: seq<Text>

    ghost predicate Valid()
      reads this
    {
      && OnPath(graph, state, stack)
      && FinishedMarks(state, finished)
      && Reports(graph, reported, issues)
      && Explained(graph, finished, issues)
    }

    constructor (graph: Graph)
      ensures Valid() && this.graph == graph
      ensures state == map[] && stack == [] && issues == []
    {
      this.graph := graph;
      state, stack, reported, issues, finished := map[], [], {}, [], [];
    }

    /** The edge from the top of the stack to a file on it closes an elementary cycle. */
    method CloseCycle(target: Text)
      requires Valid() && stack != [] && target in stack && Edge(graph, stack[|stack| - 1], target)
      modifies this`reported, this`issues
      ensures Valid() && old(issues) <= issues
      ensures Covered(graph, issues, stack[|stack| - 1], target)
    {
      var start := 0;
      while stack[start] != target
        invariant 0 <= start < |stack|
        invariant target in stack[start..]
        decreases |stack| - start
      {
        start := start + 1;
      }
      var cycle := stack[start..] + [target];
      BackEdgeCloses(graph, state, stack, start, target);
      Report(cycle, target);
    }

    /** A cycle is reported unless one with its key has been. */
    method Report(cycle: seq<Text>, target: Text)
      requires Valid() && stack != [] && ElementaryCycle(graph, cycle) && Follows(Nodes(cycle), stack[|stack| - 1], target)
      modifies this`reported, this`issues
      ensures Valid() && old(issues) <= issues
      ensures Covered(graph, issues, stack[|stack| - 1], target)
    {
      var key := CanonicalCycle(cycle);
      if key !in reported {
        AddReport(graph, reported, issues, cycle);
        ExplainedGrows(graph, finished, issues, issues + [cycle]);
        reported := reported + {key};
        issues := issues + [cycle];
        assert cycle in issues;
      } else {
        AlreadyReported(graph, reported, issues, cycle, stack[|stack| - 1], target);
      }
    }

    /** The end of a visit: all imports of the file on top of the stack have been looked at. */
    method Leave(file: Text, ghost below: seq<Text>)
      requires Valid() && file in graph && stack == below + [file]
      requires Settled(graph, state, issues, file, graph[file])
      modifies this`stack, this`state, this`finished
      ensures Valid() && stack == below && state == old(state)[file := Done]
    {
      FinishFile(graph, state, finished, issues, below, file);
      stack := stack[..|stack| - 1];
      state := state[file := Done];
      finished := finished + [file];
    }

    /** The start of a visit: the file is marked and goes on top of the stack. */
    method Enter(file: Text)
      requires Valid() && file in graph && file !in state
      requires stack != [] ==> Edge(graph, stack[|stack| - 1], file)
      modifies this`stack, this`state
      ensures Valid() && stack == old(stack) + [file] && state == old(state)[file := OnStack]
    {
      Push(graph, state, stack, file);
      state := state[file := OnStack];
      stack := stack + [file];
    }

    /** One edge from the file on top of the stack. */
    method FollowEdge(file: Text, target: Text)
      requires Valid() && stack != [] && stack[|stack| - 1] == file && Edge(graph, file, target)
      modifies this
      ensures Valid() && stack == old(stack)
      ensures Later(old(state), state) && old(issues) <= issues
      ensures (target in state && state[target] == Done) || Covered(graph, issues, file, target)
      decreases graph.Keys - state.Keys, 1
    {
      if target in state && state[target] == OnStack {
        CloseCycle(target);
      } else if target !in state {
        Visit(target);
      }
    }

    /** One round of the loop over the imports of the file on top of the stack. */
    method FollowImport(file: Text, i: nat)
      requires Valid() && stack != [] && stack[|stack| - 1] == file
      requires file in graph && i < |graph[file]|
      requires Settled(graph, state, issues, file, graph[file][..i])
      modifies this
      ensures Valid() && stack == old(stack)
      ensures Later(old(state), state) && old(issues) <= issues
      ensures Settled(graph, state, issues, file, graph[file][..i + 1])
      decreases graph.Keys - state.Keys, 2
    {
      var target := graph[file][i];
      if target in graph {
        FollowEdge(file, target);
      }
      SettledGrows(graph, old(state), old(issues), state, issues, file, graph[file][..i], target);
      assert graph[file][..i + 1] == graph[file][..i] + [target];
    }

    method Visit(file: Text)
      requires Valid() && file in graph && file !in state
      requires stack != [] ==> Edge(graph, stack[|stack| - 1], file)
      modifies this
      ensures Valid() && stack == old(stack)
      ensures file in state && state[file] == Done
      ensures Later(old(state), state) && old(issues) <= issues
      decreases graph.Keys - state.Keys, 0
    {
      Enter(file);
      var targets := graph[file];
      for i := 0 to |targets|
        invariant Valid() && stack == old(stack) + [file]
        invariant file in state && state[file] == OnStack
        invariant Later(old(state), state) && old(issues) <= issues
        invariant Settled(graph, state, issues, file, targets[..i])
      {
        FollowImport(file, i);
      }
      assert targets[..|targets|] == targets;
      Leave(file, old(stack));
    }
  }

  lemma PrecedesTransitive(finished: seq<Text>, w: Text, v: Text, u: Text)
    requires Distinct(finished) && Precedes(finished, w, v) && Precedes(finished, v, u)
    ensures Precedes(finished, w, u) && w != u
  {
    var i, j :| 0 <= i < j < |finished| && finished[i] == w && finished[j] == v;
    var k, l :| 0 <= k < l < |finished| && finished[k] == v && finished[l] == u;
    assert j == k;
    assert finished[i] == w && finished[l] == u;
  }

  /** Along a walk whose every edge leads to a file finished earlier, the end was finished before the start. */
  lemma {:induction false} WalkDescends(finished: seq<Text>, c: seq<Text>)
    requires Distinct(finished) && |c| >= 2
    requires forall i | 0 <= i < |c| - 1 :: Precedes(finished, c[i + 1], c[i])
    ensures Precedes(finished, c[|c| - 1], c[0]) && c[|c| - 1] != c[0]
  {
    assert Precedes(finished, c[1], c[0]);
    if |c| > 2 {
      var rest := c[1..];
      forall i | 0 <= i < |rest| - 1
        ensures Precedes(finished, rest[i + 1], rest[i])
      {
        assert Precedes(finished, c[i + 2], c[i + 1]);
      }
      WalkDescends(finished, rest);
      PrecedesTransitive(finished, c[|c| - 1], c[1], c[0]);
    }
  }

  /** Once every file is finished, each closed walk has an edge that was reported as closing a cycle. */
  lemma ClosedWalkIsCovered(g: Graph, finished: seq<Text>, issues: seq<seq<Text>>, c: seq<Text>)
    requires Explained(g, finished, issues) && Distinct(finished)
    requires forall u | u in g :: u in finished
    requires ClosedWalk(g, c)
    ensures exists i | 0 <= i < |c| - 1 :: Covered(g, issues, c[i], c[i + 1])
  {
    if forall i | 0 <= i < |c| - 1 :: !Covered(g, issues, c[i], c[i + 1]) {
      forall i | 0 <= i < |c| - 1
        ensures Precedes(finished, c[i + 1], c[i])
      {
        assert Edge(g, c[i], c[i + 1]);
      }
      WalkDescends(finished, c);
      assert false;
    }
  }

  /** Some edge of the walk lies on a reported cycle. */
  ghost predicate MeetsReport(issues: seq<seq<Text>>, c: seq<Text>)
  {
    exists i, k | 0 <= i < |c| - 1 && 0 <= k < |issues| && issues[k] != [] :: Follows(Nodes(issues[k]), c[i], c[i + 1])
  }

  lemma AllFilesFinished(g: Graph, reported: set<Text>, finished: seq<Text>, issues: seq<seq<Text>>)
    requires Reports(g, reported, issues) && Explained(g, finished, issues) && Distinct(finished)
    requires forall u | u in g :: u in finished
    ensures issues != [] <==> exists c :: ClosedWalk(g, c)
    ensures NulFree(g) ==> forall c | ClosedWalk(g, c) :: MeetsReport(issues, c)
  {
    if issues != [] { assert ElementaryCycle(g, issues[0]); }
    forall c | ClosedWalk(g, c)
      ensures issues != [] && (NulFree(g) ==> MeetsReport(issues, c))
    {
      ClosedWalkIsCovered(g, finished, issues, c);
      var i :| 0 <= i < |c| - 1 && Covered(g, issues, c[i], c[i + 1]);
      if NulFree(g) {
        var r :| r in issues && r != [] && Follows(Nodes(r), c[i], c[i + 1]);
        var k :| 0 <= k < |issues| && issues[k] == r;
        assert Follows(Nodes(issues[k]), c[i], c[i + 1]);
      }
    }
  }

  /**
   The whole search. Every report is an elementary cycle of real imports and no two reports are the same
   cycle; something is reported exactly when the imports have a cycle; and with NUL-free names removing
   the reported cycles' edges leaves no cycle at all.
   */
  method AnalyzeCycles(graph: Graph, files: seq<Text>) returns (issues: seq<seq<Text>>)
    requires forall u :: u in files <==> u in graph
    ensures forall k | 0 <= k < |issues| :: ElementaryCycle(graph, issues[k])
    ensures KeysDiffer(issues)
    ensures forall i, j | 0 <= i < j < |issues| ::
              issues[i] != [] && issues[j] != [] && !Rotations(Nodes(issues[i]), Nodes(issues[j]))
    ensures issues != [] <==> exists c :: ClosedWalk(graph, c)
    ensures NulFree(graph) ==> forall c | ClosedWalk(graph, c) :: MeetsReport(issues, c)
  {
    var finder := new CycleFinder(graph);
    for i := 0 to |files|
      invariant finder.Valid() && finder.graph == graph && finder.stack == []
      invariant forall u | u in files[..i] :: u in finder.state
    {
      if files[i] !in finder.state {
        finder.Visit(files[i]);
      }
    }
    assert files[..|files|] == files;
    issues := finder.issues;
    ReportsDiffer(graph, finder.reported, issues);
    AllFilesFinished(graph, finder.reported, finder.finished, issues);
  }

  // ----- A NUL in a file name can hide a cycle

  const FILE_P: Text := [0x70]
  const FILE_Q: Text := [0x71]
  const FILE_P_NUL_Q: Text := [0x70, NUL, 0x71]

  /** Two files that import each other, and one that imports itself. */
  const CLASHING: Graph := map[FILE_P := [FILE_Q], FILE_Q := [FILE_P], FILE_P_NUL_Q := [FILE_P_NUL_Q]]

  lemma ClashingEdges(u: Text, v: Text)
    ensures Edge(CLASHING, u, v) <==>
            (u == FILE_P && v == FILE_Q) || (u == FILE_Q && v == FILE_P) || (u == FILE_P_NUL_Q && v == FILE_P_NUL_Q)
  {
    assert FILE_P != FILE_Q by { assert FILE_P[0] != FILE_Q[0]; }
    assert |FILE_P_NUL_Q| == 3 && |FILE_P| == |FILE_Q| == 1;
  }

  lemma ClashingCycles(c: seq<Text>)
    requires ElementaryCycle(CLASHING, c)
    ensures Nodes(c) == [FILE_P, FILE_Q] || Nodes(c) == [FILE_Q, FILE_P] || Nodes(c) == [FILE_P_NUL_Q]
  {
    var nodes := Nodes(c);
    assert Edge(CLASHING, c[0], c[0 + 1]);
    ClashingEdges(c[0], c[1]);
    if |c| > 2 {
      assert nodes[0] != nodes[1] && Edge(CLASHING, c[1], c[1 + 1]);
      ClashingEdges(c[1], c[2]);
    }
  }

  /** The two cycles are different, and have the same key. */
  lemma KeysClash()
    ensures ElementaryCycle(CLASHING, [FILE_P, FILE_Q, FILE_P])
    ensures ElementaryCycle(CLASHING, [FILE_P_NUL_Q, FILE_P_NUL_Q])
    ensures !Rotations([FILE_P, FILE_Q], [FILE_P_NUL_Q])
    ensures CanonicalKey([FILE_P, FILE_Q]) == CanonicalKey([FILE_Q, FILE_P]) == CanonicalKey([FILE_P_NUL_Q]) == FILE_P_NUL_Q
  {
    var two, one := [FILE_P, FILE_Q, FILE_P], [FILE_P_NUL_Q, FILE_P_NUL_Q];
    ClashingEdges(FILE_P, FILE_Q);
    ClashingEdges(FILE_Q, FILE_P);
    ClashingEdges(FILE_P_NUL_Q, FILE_P_NUL_Q);
    assert Nodes(two) == [FILE_P, FILE_Q] && Nodes(one) == [FILE_P_NUL_Q];
    assert FILE_P[0] != FILE_Q[0];
    assert Rotate([FILE_P, FILE_Q], 1) == [FILE_Q, FILE_P];
    assert [FILE_P, FILE_Q][1..] == [FILE_Q] && [FILE_Q, FILE_P][1..] == [FILE_P];
    assert Join([FILE_P, FILE_Q], NUL) == FILE_P_NUL_Q;
    assert Join([FILE_Q, FILE_P], NUL)[0] == 0x71;
    assert !Less(Join([FILE_Q, FILE_P], NUL), FILE_P_NUL_Q);
    assert BestOf([FILE_P, FILE_Q], 1) == FILE_P_NUL_Q && BestOf([FILE_P, FILE_Q], 2) == FILE_P_NUL_Q;
    KeyRotationInvariant([FILE_P, FILE_Q], [FILE_Q, FILE_P]);
  }

  /** A report that shares an edge with a cycle tells which of the two it is, but not by its key. */
  lemma ClashingReport(issues: seq<seq<Text>>, c: seq<Text>, m: int) returns (k: nat)
    requires forall k | 0 <= k < |issues| :: ElementaryCycle(CLASHING, issues[k])
    requires MeetsReport(issues, c) && forall u | u in c :: |u| == m
    ensures k < |issues| && KeyOf(issues[k]) == FILE_P_NUL_Q
    ensures issues[k] != [] && (Nodes(issues[k]) == [FILE_P_NUL_Q] <==> m == 3)
  {
    var i, l :| 0 <= i < |c| - 1 && 0 <= l < |issues| && issues[l] != [] && Follows(Nodes(issues[l]), c[i], c[i + 1]);
    k := l;
    ClashingCycles(issues[k]);
    KeysClash();
    assert |FILE_P_NUL_Q| == 3 && |FILE_P| == |FILE_Q| == 1 && |c[i]| == m;
  }

  /** So whatever the search reports, one of the two cycles shares no edge with a report. */
  lemma NulHidesACycle(issues: seq<seq<Text>>)
    requires (forall k | 0 <= k < |issues| :: ElementaryCycle(CLASHING, issues[k])) && KeysDiffer(issues)
    ensures !MeetsReport(issues, [FILE_P, FILE_Q, FILE_P]) || !MeetsReport(issues, [FILE_P_NUL_Q, FILE_P_NUL_Q])
  {
    if MeetsReport(issues, [FILE_P, FILE_Q, FILE_P]) && MeetsReport(issues, [FILE_P_NUL_Q, FILE_P_NUL_Q]) {
      var k := ClashingReport(issues, [FILE_P, FILE_Q, FILE_P], 1);
      var l := ClashingReport(issues, [FILE_P_NUL_Q, FILE_P_NUL_Q], 3);
    }
  }
}
