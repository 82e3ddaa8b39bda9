/**
 * What the printer computes, as functions on values.
 *
 * `State` is the printer's state: the output text, the set of visited node
 * identities, and `fired`, the log of nodes whose formatter the traversal
 * dispatched (in order). `Walk` is the depth-first, pre-order traversal of a
 * node list and `Format` the per-kind formatter; the methods of
 * `Printer.Printer` are proved to change their state exactly as these do.
 */
module Render {
  import opened Ast

  /** Two spaces per depth level. */
  function Indent(depth: nat): (r: string)
    ensures |r| == 2 * depth
    ensures forall i :: 0 <= i < |r| ==> r[i] == ' '
  {
    if depth == 0 then "" else "  " + Indent(depth - 1)
  }

  /** The text of a visibility: the four named ones by name, anything else "unknown". */
  function InferVisibility(v: Visibility): (r: string)
    ensures r in {"public", "internal", "private", "external", "unknown"}
    ensures r == "unknown" <==> v.OtherVisibility?
  {
    match v
    case Public => "public"
    case Internal => "internal"
    case Private => "private"
    case External => "external"
    case OtherVisibility(_) => "unknown"
  }

  /** The callee's name when it is a primary expression, the empty string otherwise. */
  function CalleeName(c: Callee): (r: string)
    ensures c.PrimaryExpression? ==> r == c.name
    ensures c.OtherExpression? ==> r == ""
  {
    match c
    case PrimaryExpression(name) => name
    case OtherExpression => ""
  }

  /**
   * The names joined with ", " between consecutive names: no separator before
   * the first name or after the last.
   */
  function JoinNames(names: seq<string>): (r: string)
    ensures |names| == 0 ==> r == ""
    ensures |names| == 1 ==> r == names[0]
    ensures |names| > 0 ==> names[0] <= r
  {
    if |names| == 0 then ""
    else if |names| == 1 then names[0]
    else names[0] + ", " + JoinNames(names[1..])
  }

  /** The kinds whose whole contribution is one line of text. */
  predicate OneLine(k: Kind)
  {
    !k.ContractDefinition? && !k.StructDefinition?
  }

  /** What the formatter of a kind without a nested block appends at `depth`. */
  function Line(k: Kind, depth: nat): (r: string)
    requires OneLine(k)
    ensures k.SourceUnit? || k.OtherVariableDeclaration? ==> r == ""
    ensures k.Identifier? ==> r == k.name
    ensures k.VariableDeclaration? ==> |r| >= 3 && r[|r| - 3..] == "; \n"
    ensures k.FunctionCall? ==> |r| >= 8 && r[|r| - 8..] == "(args) \n"
    ensures k.FunctionDefinition? ==> |r| >= 3 && r[|r| - 3..] == " {\n"
  {
    match k
    case SourceUnit => ""
    case Pragma(text) => Indent(depth) + text + "\n"
    case Import(name) => Indent(depth) + "Import: " + name + "\n"
    case ModifierDefinition(name) => Indent(depth) + "Modifier: " + name + "\n"
    case FunctionDefinition(name, vis) =>
      Indent(depth) + "function " + name + "() " + InferVisibility(vis) + " {\n"
    case VariableDeclaration(_, name, _, typeName) => Indent(depth) + typeName + " " + name + "; \n"
    case OtherVariableDeclaration => ""
    case FunctionCall(callee) => Indent(depth) + CalleeName(callee) + "(args) \n"
    case ElementaryTypeName(name) => Indent(depth) + "TypeName: " + name + "\n"
    case Identifier(name) => name
    case OtherKind(kindName) => Indent(depth) + "Unknown Node: " + kindName + "\n"
  }

  /**
   * The contract's opening line. No separator stands between the name and the
   * first base name (the Go code has its " is " commented out), so contract C
   * with bases A and B opens with "Contract CA, B {".
   */
  function ContractHeader(name: string, baseNames: seq<string>, depth: nat): (r: string)
    ensures Indent(depth) + "Contract " + name <= r
    ensures |baseNames| == 0 ==> r == Indent(depth) + "Contract " + name + " {\n"
    ensures |baseNames| > 0 ==> Indent(depth) + "Contract " + name + baseNames[0] <= r
    ensures |r| >= 3 && r[|r| - 3..] == " {\n"
  {
    Indent(depth) + "Contract " + name + JoinNames(baseNames) + " {\n"
  }

  /** The struct's opening line. */
  function StructHeader(name: string, depth: nat): (r: string)
    ensures |r| == 2 * depth + |name| + 10
    ensures Indent(depth) + "struct " + name <= r
    ensures r[|r| - 3..] == " {\n"
  {
    Indent(depth) + "struct " + name + " {\n"
  }

  /** The line that closes a contract or struct block, at the block's own indent. */
  function Closing(depth: nat): (r: string)
    ensures |r| == 2 * depth + 2
    ensures r[..2 * depth] == Indent(depth) && r[2 * depth..] == "}\n"
  {
    Indent(depth) + "}\n"
  }

  datatype State = State(output: string, visited: set<NodeId>, fired: seq<NodeId>)

  function Append(st: State, text: string): State
  {
    st.(output := st.output + text)
  }

  /** The step taken before a node's formatter runs: mark it visited and log it. */
  function Mark(st: State, id: NodeId): State
  {
    st.(visited := st.visited + {id}, fired := st.fired + [id])
  }

  /** The identities below `n`. */
  function IdsBelow(n: nat): (r: set<NodeId>)
    ensures forall i: NodeId :: i in r <==> i < n
  {
    if n == 0 then {} else IdsBelow(n - 1) + {n - 1}
  }

  /** The identities of all nodes of the arena. */
  function Ids(arena: Arena): set<NodeId>
  {
    IdsBelow(|arena|)
  }

  /** The termination measure: nodes of the arena not yet visited. */
  function Unvisited(arena: Arena, visited: set<NodeId>): set<NodeId>
  {
    Ids(arena) - visited
  }

  /**
   * The traversal of a node list at `depth`: a visited node is skipped with
   * its subtree; an unvisited one is marked, formatted, and its children are
   * walked one level deeper, before the rest of the list.
   */
  function Walk(arena: Arena, nodes: seq<NodeId>, depth: nat, st: State): (r: State)
    requires WellFormed(arena) && InArena(arena, nodes)
    ensures st.visited <= r.visited && st.output <= r.output && st.fired <= r.fired
    decreases Unvisited(arena, st.visited), 0, |nodes|
  {
    if nodes == [] then st
    else
      var id := nodes[0];
      if id in st.visited then Walk(arena, nodes[1..], depth, st)
      else
        var marked := Mark(st, id);
        assert id in Unvisited(arena, st.visited) - Unvisited(arena, marked.visited);
        var formatted := Format(arena, arena[id].kind, depth, marked);
        var done := Walk(arena, arena[id].children, depth + 1, formatted);
        Walk(arena, nodes[1..], depth, done)
  }

  /**
   * The formatter of one kind at `depth`. Contracts and structs walk their own
   * list one level deeper between a header and a closing line; a variable
   * declaration also marks its type node visited.
   */
  function Format(arena: Arena, k: Kind, depth: nat, st: State): (r: State)
    requires WellFormed(arena) && InArena(arena, Nested(k))
    ensures st.visited <= r.visited && st.output <= r.output && st.fired <= r.fired
    decreases Unvisited(arena, st.visited), 1, 0
  {
    match k
    case ContractDefinition(name, baseNames, body) =>
      var inner := Walk(arena, body, depth + 1, Append(st, ContractHeader(name, baseNames, depth)));
      Append(inner, Closing(depth))
    case StructDefinition(name, members) =>
      var inner := Walk(arena, members, depth + 1, Append(st, StructHeader(name, depth)));
      Append(inner, Closing(depth))
    case VariableDeclaration(_, _, typeRef, _) =>
      Append(st.(visited := st.visited + {typeRef}), Line(k, depth))
    case _ => Append(st, Line(k, depth))
  }

  /** No log entry twice. */
  predicate NoDup(s: seq<NodeId>)
  {
    forall i, j :: 0 <= i < j < |s| ==> s[i] != s[j]
  }

  /** The log holds distinct nodes, every one of them visited. */
  predicate Consistent(st: State)
  {
    NoDup(st.fired) && forall i :: 0 <= i < |st.fired| ==> st.fired[i] in st.visited
  }
}
