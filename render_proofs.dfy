/**
 * Properties of the traversal and the formatters defined in `Render`.
 */
module RenderProofs {
  import opened Ast
  import opened Render

  /** Every node of `ids` is in `s`. */
  predicate Within(ids: seq<NodeId>, s: set<NodeId>)
  {
    forall j :: 0 <= j < |ids| ==> ids[j] in s
  }

  predicate EndsWith(s: string, suffix: string)
  {
    |suffix| <= |s| && s[|s| - |suffix|..] == suffix
  }

  // ---------------------------------------------------------------- formatting

  /** One level deeper is two more spaces. */
  lemma IndentStep(depth: nat)
    ensures Indent(depth + 1) == Indent(depth) + "  "
  {
  }

  /** The four named visibilities are told apart by their text. */
  lemma InferVisibilityDistinct(v: Visibility, w: Visibility)
    requires !v.OtherVisibility? && !w.OtherVisibility?
    ensures InferVisibility(v) == InferVisibility(w) ==> v == w
  {
  }

  lemma {:induction false} JoinNamesSnoc(names: seq<string>, n: string)
    ensures JoinNames(names + [n]) == if |names| == 0 then n else JoinNames(names) + ", " + n
    decreases |names|
  {
    if |names| > 1 {
      assert (names + [n])[1..] == names[1..] + [n];
      JoinNamesSnoc(names[1..], n);
    } else if |names| == 1 {
      assert (names + [n])[1..] == [n];
    }
  }

  /** One step of appending the base names one by one: separator first, except before the first name. */
  lemma JoinNamesPrefixStep(prefix: string, names: seq<string>, i: nat, before: string, after: string)
    requires i < |names| && before == prefix + JoinNames(names[..i])
    requires after == if i == 0 then before + names[i] else before + ", " + names[i]
    ensures after == prefix + JoinNames(names[..i + 1])
  {
    assert names[..i + 1] == names[..i] + [names[i]];
    JoinNamesSnoc(names[..i], names[i]);
  }

  /** Every kind that emits a line of its own starts it at its indent and ends it with a newline. */
  lemma LineShape(k: Kind, depth: nat)
    requires OneLine(k) && !k.SourceUnit? && !k.Identifier? && !k.OtherVariableDeclaration?
    ensures Indent(depth) <= Line(k, depth)
    ensures |Line(k, depth)| > 2 * depth && Line(k, depth)[|Line(k, depth)| - 1] == '\n'
  {
    var indent := Indent(depth);
    match k {
      case Pragma(text) => assert Line(k, depth) == indent + text + "\n";
      case Import(name) => assert Line(k, depth) == indent + "Import: " + name + "\n";
      case ModifierDefinition(name) => assert Line(k, depth) == indent + "Modifier: " + name + "\n";
      case FunctionDefinition(name, vis) =>
        assert Line(k, depth) == indent + "function " + name + "() " + InferVisibility(vis) + " {\n";
      case VariableDeclaration(_, name, _, typeName) =>
        assert Line(k, depth) == indent + typeName + " " + name + "; \n";
      case FunctionCall(callee) => assert Line(k, depth) == indent + CalleeName(callee) + "(args) \n";
      case ElementaryTypeName(name) => assert Line(k, depth) == indent + "TypeName: " + name + "\n";
      case OtherKind(kindName) => assert Line(k, depth) == indent + "Unknown Node: " + kindName + "\n";
    }
  }

  // ----------------------------------------------------------------- traversal

  /** After a walk every node of the list is visited. */
  lemma {:induction false} WalkMarksAll(arena: Arena, nodes: seq<NodeId>, depth: nat, st: State)
    requires WellFormed(arena) && InArena(arena, nodes)
    ensures Within(nodes, Walk(arena, nodes, depth, st).visited)
    decreases |nodes|
  {
    if nodes != [] {
      var id := nodes[0];
      var r := Walk(arena, nodes, depth, st);
      if id in st.visited {
        WalkMarksAll(arena, nodes[1..], depth, st);
      } else {
        var done := Walk(arena, arena[id].children, depth + 1, Format(arena, arena[id].kind, depth, Mark(st, id)));
        WalkMarksAll(arena, nodes[1..], depth, done);
      }
      forall j | 0 <= j < |nodes| ensures nodes[j] in r.visited {
        if j > 0 { assert nodes[j] == nodes[1..][j - 1]; }
      }
    }
  }

  /** A list whose nodes are all visited is skipped entirely: no output, no state change. */
  lemma {:induction false} WalkSkipsVisited(arena: Arena, nodes: seq<NodeId>, depth: nat, st: State)
    requires WellFormed(arena) && InArena(arena, nodes) && Within(nodes, st.visited)
    ensures Walk(arena, nodes, depth, st) == st
    decreases |nodes|
  {
    if nodes != [] {
      assert Within(nodes[1..], st.visited) by {
        forall j | 0 <= j < |nodes[1..]| ensures nodes[1..][j] in st.visited {
          assert nodes[1..][j] == nodes[j + 1];
        }
      }
      WalkSkipsVisited(arena, nodes[1..], depth, st);
    }
  }

  /** Printing the same roots a second time adds nothing and changes nothing. */
  lemma SecondPrintAddsNothing(arena: Arena, root: RootNode, st: State)
    requires WellFormed(arena) && InArena(arena, root.nodes)
    ensures var once := Walk(arena, root.nodes, 0, st);
            Walk(arena, root.nodes, 0, once) == once
  {
    var once := Walk(arena, root.nodes, 0, st);
    WalkMarksAll(arena, root.nodes, 0, st);
    WalkSkipsVisited(arena, root.nodes, 0, once);
  }

  /** Every node logged after `st` up to `r` was unvisited at `st`. */
  predicate FreshSince(st: State, r: State)
  {
    forall i :: |st.fired| <= i < |r.fired| ==> r.fired[i] !in st.visited
  }

  lemma FreshTrans(a: State, b: State, c: State)
    requires a.visited <= b.visited && a.fired <= b.fired && b.fired <= c.fired
    requires FreshSince(a, b) && FreshSince(b, c)
    ensures FreshSince(a, c)
  {
  }

  /**
   * A walk runs the formatter only of nodes unvisited when it started, and
   * never twice: from a consistent state it reaches a consistent state.
   */
  lemma {:induction false} WalkFiresOnce(arena: Arena, nodes: seq<NodeId>, depth: nat, st: State)
    requires WellFormed(arena) && InArena(arena, nodes) && Consistent(st)
    ensures var r := Walk(arena, nodes, depth, st);
            Consistent(r) && FreshSince(st, r)
    decreases Unvisited(arena, st.visited), 0, |nodes|
  {
    if nodes != [] {
      var id := nodes[0];
      if id in st.visited {
        WalkFiresOnce(arena, nodes[1..], depth, st);
      } else {
        var marked := Mark(st, id);
        assert id in Unvisited(arena, st.visited) - Unvisited(arena, marked.visited);
        assert Consistent(marked) by {
          forall i | 0 <= i < |st.fired| ensures st.fired[i] != id {
            assert st.fired[i] in st.visited;
          }
        }
        var formatted := Format(arena, arena[id].kind, depth, marked);
        FormatFiresOnce(arena, arena[id].kind, depth, marked);
        var done := Walk(arena, arena[id].children, depth + 1, formatted);
        WalkFiresOnce(arena, arena[id].children, depth + 1, formatted);
        var r := Walk(arena, nodes[1..], depth, done);
        WalkFiresOnce(arena, nodes[1..], depth, done);
        FreshTrans(st, marked, formatted);
        FreshTrans(st, formatted, done);
        FreshTrans(st, done, r);
      }
    }
  }

  lemma {:induction false} FormatFiresOnce(arena: Arena, k: Kind, depth: nat, st: State)
    requires WellFormed(arena) && InArena(arena, Nested(k)) && Consistent(st)
    ensures var r := Format(arena, k, depth, st);
            Consistent(r) && FreshSince(st, r)
    decreases Unvisited(arena, st.visited), 1, 0
  {
    match k
    case ContractDefinition(name, baseNames, body) =>
      WalkFiresOnce(arena, body, depth + 1, Append(st, ContractHeader(name, baseNames, depth)));
    case StructDefinition(name, members) =>
      WalkFiresOnce(arena, members, depth + 1, Append(st, StructHeader(name, depth)));
    case _ =>
  }

  /** The children and the nested list of node `id` are all visited in `visited`. */
  predicate Covered(arena: Arena, id: NodeId, visited: set<NodeId>)
    requires id < |arena|
  {
    Within(arena[id].children, visited) && Within(Nested(arena[id].kind), visited)
  }

  /** Every node logged after `st` up to `r` is in the arena and has its whole list of children visited in `r`. */
  predicate CoveredSince(arena: Arena, st: State, r: State)
  {
    forall i :: |st.fired| <= i < |r.fired| ==> r.fired[i] < |arena| && Covered(arena, r.fired[i], r.visited)
  }

  lemma CoveredTrans(arena: Arena, a: State, b: State, c: State)
    requires a.fired <= b.fired && b.fired <= c.fired && b.visited <= c.visited
    requires CoveredSince(arena, a, b) && CoveredSince(arena, b, c)
    ensures CoveredSince(arena, a, c)
  {
  }

  /** A contract or struct has its nested list visited once its formatter has run. */
  lemma FormatMarksNested(arena: Arena, k: Kind, depth: nat, st: State)
    requires WellFormed(arena) && InArena(arena, Nested(k))
    ensures Within(Nested(k), Format(arena, k, depth, st).visited)
  {
    match k
    case ContractDefinition(name, baseNames, body) =>
      WalkMarksAll(arena, body, depth + 1, Append(st, ContractHeader(name, baseNames, depth)));
    case StructDefinition(name, members) =>
      WalkMarksAll(arena, members, depth + 1, Append(st, StructHeader(name, depth)));
    case _ =>
  }

  /**
   * The traversal does not stop short inside a subtree: every node whose
   * formatter a walk runs has all its children (and its body or members)
   * visited when the walk ends.
   */
  lemma {:induction false} WalkCovers(arena: Arena, nodes: seq<NodeId>, depth: nat, st: State)
    requires WellFormed(arena) && InArena(arena, nodes)
    ensures CoveredSince(arena, st, Walk(arena, nodes, depth, st))
    decreases Unvisited(arena, st.visited), 0, |nodes|
  {
    if nodes != [] {
      var id := nodes[0];
      if id in st.visited {
        WalkCovers(arena, nodes[1..], depth, st);
      } else {
        var marked := Mark(st, id);
        assert id in Unvisited(arena, st.visited) - Unvisited(arena, marked.visited);
        var k := arena[id].kind;
        var formatted := Format(arena, k, depth, marked);
        FormatCovers(arena, k, depth, marked);
        FormatMarksNested(arena, k, depth, marked);
        var done := Walk(arena, arena[id].children, depth + 1, formatted);
        WalkCovers(arena, arena[id].children, depth + 1, formatted);
        WalkMarksAll(arena, arena[id].children, depth + 1, formatted);
        var r := Walk(arena, nodes[1..], depth, done);
        WalkCovers(arena, nodes[1..], depth, done);
        CoveredTrans(arena, marked, formatted, done);
        CoveredTrans(arena, marked, done, r);
        assert Covered(arena, id, r.visited);
        assert r.fired[|st.fired|] == id;
      }
    }
  }

  lemma {:induction false} FormatCovers(arena: Arena, k: Kind, depth: nat, st: State)
    requires WellFormed(arena) && InArena(arena, Nested(k))
    ensures CoveredSince(arena, st, Format(arena, k, depth, st))
    decreases Unvisited(arena, st.visited), 1, 0
  {
    match k
    case ContractDefinition(name, baseNames, body) =>
      WalkCovers(arena, body, depth + 1, Append(st, ContractHeader(name, baseNames, depth)));
    case StructDefinition(name, members) =>
      WalkCovers(arena, members, depth + 1, Append(st, StructHeader(name, depth)));
    case _ =>
  }

  lemma {:induction false} DistinctWithin(s: seq<NodeId>, u: set<NodeId>)
    requires NoDup(s) && forall i :: 0 <= i < |s| ==> s[i] in u
    ensures |s| <= |u|
    decreases |s|
  {
    if s != [] {
      var rest := s[1..];
      assert forall i :: 0 <= i < |rest| ==> rest[i] in u - {s[0]} by {
        forall i | 0 <= i < |rest| ensures rest[i] in u - {s[0]} {
          assert rest[i] == s[i + 1];
        }
      }
      DistinctWithin(rest, u - {s[0]});
    }
  }

  /**
   * Termination bound: a walk runs at most as many formatters as the arena
   * has unvisited nodes when it starts.
   */
  lemma WalkBounded(arena: Arena, nodes: seq<NodeId>, depth: nat, st: State)
    requires WellFormed(arena) && InArena(arena, nodes) && Consistent(st)
    ensures |Walk(arena, nodes, depth, st).fired| - |st.fired| <= |Unvisited(arena, st.visited)|
  {
    var r := Walk(arena, nodes, depth, st);
    WalkFiresOnce(arena, nodes, depth, st);
    WalkCovers(arena, nodes, depth, st);
    var newly := r.fired[|st.fired|..];
    assert NoDup(newly) by {
      forall i, j | 0 <= i < j < |newly| ensures newly[i] != newly[j] {
        assert newly[i] == r.fired[|st.fired| + i] && newly[j] == r.fired[|st.fired| + j];
      }
    }
    forall i | 0 <= i < |newly| ensures newly[i] in Unvisited(arena, st.visited) {
      assert newly[i] == r.fired[|st.fired| + i];
    }
    DistinctWithin(newly, Unvisited(arena, st.visited));
  }

  // ------------------------------------------------------ per-kind behaviour

  /**
   * A variable declaration marks its type node visited, so no later walk
   * runs that node's formatter: no "TypeName:" line is printed for it.
   */
  lemma DeclaredTypeNeverListed(arena: Arena, decl: Kind, depth: nat, st: State, later: seq<NodeId>, laterDepth: nat)
    requires WellFormed(arena) && InArena(arena, later) && Consistent(st)
    requires decl.VariableDeclaration?
    ensures var s := Format(arena, decl, depth, st);
            var r := Walk(arena, later, laterDepth, s);
            decl.typeRef in s.visited &&
            forall i :: |s.fired| <= i < |r.fired| ==> r.fired[i] != decl.typeRef
  {
    var s := Format(arena, decl, depth, st);
    FormatFiresOnce(arena, decl, depth, st);
    WalkFiresOnce(arena, later, laterDepth, s);
  }

  /**
   * A contract prints its header, then its body one level deeper, then the
   * closing brace at its own indent; its whole body ends up visited.
   */
  lemma ContractLayout(arena: Arena, contract: Kind, depth: nat, st: State)
    requires WellFormed(arena) && contract.ContractDefinition? && InArena(arena, contract.body)
    ensures var r := Format(arena, contract, depth, st);
            && st.output + ContractHeader(contract.name, contract.baseNames, depth) <= r.output
            && EndsWith(r.output, Indent(depth) + "}\n")
            && Within(contract.body, r.visited)
  {
    FormatMarksNested(arena, contract, depth, st);
  }

  /**
   * An unvisited node of a kind without a rule prints its diagnostic line at
   * its indent, is logged, and its children are still walked.
   */
  lemma UnknownKindContinues(arena: Arena, id: NodeId, depth: nat, st: State)
    requires WellFormed(arena) && id < |arena| && arena[id].kind.OtherKind? && id !in st.visited
    ensures var r := Walk(arena, [id], depth, st);
            && st.output + Indent(depth) + "Unknown Node: " + arena[id].kind.kindName + "\n" <= r.output
            && |r.fired| > |st.fired| && r.fired[|st.fired|] == id
            && Within(arena[id].children, r.visited)
  {
    var k := arena[id].kind;
    var marked := Mark(st, id);
    var formatted := Format(arena, k, depth, marked);
    assert formatted.output == st.output + Indent(depth) + "Unknown Node: " + k.kindName + "\n";
    var done := Walk(arena, arena[id].children, depth + 1, formatted);
    WalkMarksAll(arena, arena[id].children, depth + 1, formatted);
    assert [id][1..] == [];
    assert Walk(arena, [id], depth, st) == Walk(arena, [], depth, done);
  }
}
