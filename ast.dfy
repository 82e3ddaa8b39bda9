/**
 * The abstract syntax tree the printer walks, as an arena of nodes.
 *
 * A node's identity is its index in the arena: two structurally equal
 * nodes at different positions are different nodes, as with the pointer
 * identity the printer's `visited` map is keyed by. Each node carries its
 * kind (with the attributes the printer reads) and its generic child list.
 */
module Ast {

  /** Identity of a node: its index in the arena. */
  type NodeId = nat

  /** Function visibility; any value outside the four named ones is kept by its code. */
  datatype Visibility = Public | Internal | Private | External | OtherVisibility(code: int)

  /** The two concrete forms a variable-declaration node can take. */
  datatype DeclForm = StateVariable | Parameter

  /** The callee expression of a function call. */
  datatype Callee = PrimaryExpression(name: string) | OtherExpression

  /** A node kind together with the attributes the printer formats. */
  datatype Kind =
    | SourceUnit
    | Pragma(text: string)
    | Import(name: string)
    | ModifierDefinition(name: string)
    | FunctionDefinition(name: string, visibility: Visibility)
      /** `body` is the contract's own member list; `baseNames` its inheritance list. */
    | ContractDefinition(name: string, baseNames: seq<string>, body: seq<NodeId>)
      /** `members` is the struct's field list, distinct from its generic children. */
    | StructDefinition(name: string, members: seq<NodeId>)
      /**
       * `typeRef` is the identity of the declaration's type node and `typeName`
       * is that node's own name, the text printed for the type. The arena is
       * assumed to hold that node with that name; the printer reads only the string.
       */
    | VariableDeclaration(form: DeclForm, name: string, typeRef: NodeId, typeName: string)
      /** A variable-declaration node that is neither a state variable nor a parameter. */
    | OtherVariableDeclaration
    | FunctionCall(callee: Callee)
    | ElementaryTypeName(name: string)
    | Identifier(name: string)
      /** Any kind the printer has no rule for, with the kind's printed name. */
    | OtherKind(kindName: string)

  datatype Node = Node(kind: Kind, children: seq<NodeId>)

  /** Every node of the tree, indexed by identity. */
  type Arena = seq<Node>

  /** The root handed to the printer: the ordered list of top-level nodes. */
  datatype RootNode = RootNode(nodes: seq<NodeId>)

  /** The node list a kind walks itself (contract body, struct members); empty otherwise. */
  function Nested(k: Kind): seq<NodeId>
  {
    match k
    case ContractDefinition(_, _, body) => body
    case StructDefinition(_, members) => members
    case _ => []
  }

  /** Every id in `ids` names a node of the arena. */
  predicate InArena(arena: Arena, ids: seq<NodeId>)
  {
    forall j :: 0 <= j < |ids| ==> ids[j] < |arena|
  }

  /** The type node a variable declaration refers to lies in the arena. */
  predicate TypeRefInArena(arena: Arena, k: Kind)
  {
    k.VariableDeclaration? ==> k.typeRef < |arena|
  }

  /**
   * No reference of any node dangles: children, bodies, members and the type
   * nodes of declarations all lie in the arena.
   */
  predicate WellFormed(arena: Arena)
  {
    forall i :: 0 <= i < |arena| ==>
      && InArena(arena, arena[i].children)
      && InArena(arena, Nested(arena[i].kind))
      && TypeRefInArena(arena, arena[i].kind)
  }
}
