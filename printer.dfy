/**
 * The printer object: an append-only output text and the set of visited
 * node identities, both updated in place as the traversal runs. Every
 * method is proved to change the state exactly as the functions of `Render`
 * say, so the properties proved in `RenderProofs` hold of the object.
 */
module Printer {
  import opened Ast
  import opened Render
  import RenderProofs

  class Printer {
    var output: string
    var visited: set<NodeId>
    /** The nodes whose formatter the traversal has dispatched, in order (proof-only log). */
    ghost var fired: seq<NodeId>

    ghost function Snapshot(): State
      reads this
    {
      State(output, visited, fired)
    }

    /** No formatter has been dispatched twice, and every dispatched node is visited. */
    ghost predicate Valid()
      reads this
    {
      Consistent(Snapshot())
    }

    /** A fresh printer: empty output, nothing visited. */
    constructor ()
      ensures output == "" && visited == {} && fired == []
      ensures Valid()
    {
      output := "";
      visited := {};
      fired := [];
    }

    method Output() returns (s: string)
      ensures s == output
    {
      s := output;
    }

    /**
     * Walks the root's top-level nodes at depth 0. On a printer that already
     * printed these roots this adds nothing (RenderProofs.SecondPrintAddsNothing),
     * and over the printer's lifetime no node is formatted twice (Valid).
     */
    method Print(arena: Arena, root: RootNode)
      requires WellFormed(arena) && InArena(arena, root.nodes) && Valid()
      modifies this
      ensures Snapshot() == Walk(arena, root.nodes, 0, old(Snapshot()))
      ensures old(output) <= output && old(visited) <= visited
      ensures Valid()
    {
      ghost var before := Snapshot();
      var nodes := root.nodes;
      TraverseNodes(arena, nodes, 0);
      RenderProofs.WalkFiresOnce(arena, nodes, 0, before);
    }

    /** Depth-first, pre-order walk of `nodes`, skipping every node already visited. */
    method TraverseNodes(arena: Arena, nodes: seq<NodeId>, depth: nat)
      requires WellFormed(arena) && InArena(arena, nodes)
      modifies this
      ensures Snapshot() == Walk(arena, nodes, depth, old(Snapshot()))
      ensures old(Valid()) ==> Valid()
      decreases Unvisited(arena, visited), 0, |nodes|
    {
      for i := 0 to |nodes|
        invariant old(visited) <= visited
        invariant Walk(arena, nodes, depth, old(Snapshot())) == Walk(arena, nodes[i..], depth, Snapshot())
      {
        var node := nodes[i];
        if node in visited {
          continue;
        }
        assert node in Unvisited(arena, old(visited)) - Unvisited(arena, visited + {node});
        visited := visited + {node};
        fired := fired + [node];
        VisitNode(arena, node, depth);
        var childNodes := arena[node].children;
        if |childNodes| > 0 {
          TraverseNodes(arena, childNodes, depth + 1);
        }
      }
      if old(Valid()) {
        RenderProofs.WalkFiresOnce(arena, nodes, depth, old(Snapshot()));
      }
    }

    /**
     * The second traversal routine, written for struct members: the same steps
     * as TraverseNodes, recursing into itself; its contract shows the two agree.
     */
    method TraverseStructMembers(arena: Arena, structMembers: seq<NodeId>, depth: nat)
      requires WellFormed(arena) && InArena(arena, structMembers)
      modifies this
      ensures Snapshot() == Walk(arena, structMembers, depth, old(Snapshot()))
      ensures old(Valid()) ==> Valid()
      decreases Unvisited(arena, visited), 0, |structMembers|
    {
      for i := 0 to |structMembers|
        invariant old(visited) <= visited
        invariant Walk(arena, structMembers, depth, old(Snapshot())) == Walk(arena, structMembers[i..], depth, Snapshot())
      {
        var member := structMembers[i];
        if member in visited {
          continue;
        }
        assert member in Unvisited(arena, old(visited)) - Unvisited(arena, visited + {member});
        visited := visited + {member};
        fired := fired + [member];
        VisitNode(arena, member, depth);
        var childNodes := arena[member].children;
        if |childNodes| > 0 {
          TraverseStructMembers(arena, childNodes, depth + 1);
        }
      }
      if old(Valid()) {
        RenderProofs.WalkFiresOnce(arena, structMembers, depth, old(Snapshot()));
      }
    }

    /** Dispatch on the node's kind; a kind without a rule prints a diagnostic line. */
    method VisitNode(arena: Arena, id: NodeId, depth: nat)
      requires WellFormed(arena) && id < |arena|
      modifies this
      ensures Snapshot() == Format(arena, arena[id].kind, depth, old(Snapshot()))
      ensures old(Valid()) ==> Valid()
      decreases Unvisited(arena, visited), 2, 0
    {
      var node := arena[id].kind;
      match node {
      case SourceUnit => VisitSourceUnit(node, depth);
      case Pragma(_) => VisitPragma(node, depth);
      case Import(_) => VisitImport(node, depth);
      case ModifierDefinition(_) => VisitModifierDefinition(node, depth);
      case FunctionDefinition(_, _) => VisitFunctionDefinition(node, depth);
      case ContractDefinition(_, _, _) => VisitContractDefinition(arena, node, depth);
      case StructDefinition(_, _) => VisitStructDefinition(arena, node, depth);
      case VariableDeclaration(_, _, _, _) => VisitVariableDeclaration(node, depth);
      case OtherVariableDeclaration =>
      case FunctionCall(_) => VisitFunctionCall(node, depth);
      case ElementaryTypeName(_) => VisitTypeName(node, depth);
      case Identifier(name) =>
        output := output + name;
      case OtherKind(kindName) =>
        output := output + (Indent(depth) + "Unknown Node: " + kindName + "\n");
      }
      if old(Valid()) {
        RenderProofs.FormatFiresOnce(arena, node, depth, old(Snapshot()));
      }
    }

    method VisitFunctionCall(functionCall: Kind, depth: nat)
      requires functionCall.FunctionCall?
      modifies this
      ensures output == old(output) + (Indent(depth) + CalleeName(functionCall.callee) + "(args) \n")
      ensures visited == old(visited) && fired == old(fired)
      ensures old(Valid()) ==> Valid()
    {
      var fn := "";
      if functionCall.callee.PrimaryExpression? {
        fn := functionCall.callee.name;
      }
      var indent := Indent(depth);
      output := output + (indent + fn + "(args) \n");
    }

    /** A source unit prints nothing: its nodes are reached by the walk anyway. */
    method VisitSourceUnit(sourceUnit: Kind, depth: nat)
      requires sourceUnit.SourceUnit?
      modifies this
      ensures output == old(output) && visited == old(visited) && fired == old(fired)
    {
    }

    method VisitPragma(pragma: Kind, depth: nat)
      requires pragma.Pragma?
      modifies this
      ensures output == old(output) + (Indent(depth) + pragma.text + "\n")
      ensures visited == old(visited) && fired == old(fired)
      ensures old(Valid()) ==> Valid()
    {
      output := output + (Indent(depth) + pragma.text + "\n");
    }

    method VisitImport(imp: Kind, depth: nat)
      requires imp.Import?
      modifies this
      ensures output == old(output) + (Indent(depth) + "Import: " + imp.name + "\n")
      ensures visited == old(visited) && fired == old(fired)
      ensures old(Valid()) ==> Valid()
    {
      output := output + (Indent(depth) + "Import: " + imp.name + "\n");
    }

    method VisitModifierDefinition(modifierDef: Kind, depth: nat)
      requires modifierDef.ModifierDefinition?
      modifies this
      ensures output == old(output) + (Indent(depth) + "Modifier: " + modifierDef.name + "\n")
      ensures visited == old(visited) && fired == old(fired)
      ensures old(Valid()) ==> Valid()
    {
      output := output + (Indent(depth) + "Modifier: " + modifierDef.name + "\n");
    }

    /** Parameters and return types are not printed, and no closing brace is ever printed. */
    method VisitFunctionDefinition(functionDef: Kind, depth: nat)
      requires functionDef.FunctionDefinition?
      modifies this
      ensures output == old(output) + (Indent(depth) + "function " + functionDef.name + "() "
                                       + InferVisibility(functionDef.visibility) + " {\n")
      ensures visited == old(visited) && fired == old(fired)
      ensures old(Valid()) ==> Valid()
    {
      var visibility := InferVisibility(functionDef.visibility);
      output := output + (Indent(depth) + "function " + functionDef.name + "() " + visibility + " {\n");
    }

    /** The header line: the name, the base names joined by ", ", and the opening brace. */
    method WriteContractHeader(contract: Kind, depth: nat)
      requires contract.ContractDefinition?
      modifies this
      ensures output == old(output) + ContractHeader(contract.name, contract.baseNames, depth)
      ensures visited == old(visited) && fired == old(fired)
      ensures old(Valid()) ==> Valid()
    {
      var start := Indent(depth) + "Contract " + contract.name;
      output := output + start;
      ghost var prefix := output;
      var bases := contract.baseNames;
      for i := 0 to |bases|
        invariant output == prefix + JoinNames(bases[..i])
        invariant visited == old(visited) && fired == old(fired)
      {
        ghost var before := output;
        if i > 0 {
          output := output + ", ";
        }
        output := output + bases[i];
        RenderProofs.JoinNamesPrefixStep(prefix, bases, i, before, output);
      }
      assert bases[..|bases|] == bases;
      output := output + " {\n";
    }

    /** The header, the body one level deeper, then "}" at the contract's own indent. */
    method VisitContractDefinition(arena: Arena, contract: Kind, depth: nat)
      requires WellFormed(arena) && contract.ContractDefinition? && InArena(arena, contract.body)
      modifies this
      ensures Snapshot() == Format(arena, contract, depth, old(Snapshot()))
      ensures old(Valid()) ==> Valid()
      decreases Unvisited(arena, visited), 1, 0
    {
      var indent := Indent(depth);
      WriteContractHeader(contract, depth);
      ghost var headed := Snapshot();
      assert headed == Append(old(Snapshot()), ContractHeader(contract.name, contract.baseNames, depth));
      TraverseNodes(arena, contract.body, depth + 1);
      output := output + (indent + "}\n");
      if old(Valid()) {
        RenderProofs.FormatFiresOnce(arena, contract, depth, old(Snapshot()));
      }
    }

    method VisitStructDefinition(arena: Arena, structDef: Kind, depth: nat)
      requires WellFormed(arena) && structDef.StructDefinition? && InArena(arena, structDef.members)
      modifies this
      ensures Snapshot() == Format(arena, structDef, depth, old(Snapshot()))
      ensures old(Valid()) ==> Valid()
      decreases Unvisited(arena, visited), 1, 0
    {
      var indent := Indent(depth);
      output := output + (indent + "struct " + structDef.name + " {\n");
      TraverseNodes(arena, structDef.members, depth + 1);
      output := output + (indent + "}\n");
      if old(Valid()) {
        RenderProofs.FormatFiresOnce(arena, structDef, depth, old(Snapshot()));
      }
    }

    /**
     * A state variable or a parameter: "<type> <name>; " on its own line, and
     * its type node is marked visited so the walk never prints it separately.
     */
    method VisitVariableDeclaration(variable: Kind, depth: nat)
      requires variable.VariableDeclaration?
      modifies this
      ensures output == old(output) + (Indent(depth) + variable.typeName + " " + variable.name + "; \n")
      ensures visited == old(visited) + {variable.typeRef} && fired == old(fired)
      ensures old(Valid()) ==> Valid()
    {
      var indent := Indent(depth);
      var typeName := variable.typeName;
      visited := visited + {variable.typeRef};
      output := output + (indent + typeName + " " + variable.name + "; \n");
    }

    method VisitTypeName(typeName: Kind, depth: nat)
      requires typeName.ElementaryTypeName?
      modifies this
      ensures output == old(output) + (Indent(depth) + "TypeName: " + typeName.name + "\n")
      ensures visited == old(visited) && fired == old(fired)
      ensures old(Valid()) ==> Valid()
    {
      output := output + (Indent(depth) + "TypeName: " + typeName.name + "\n");
    }
  }
}
