# AST printer model

This project models the syntax-tree printer of a Solidity optimiser plugin. The
printer renders a parsed program's tree as indented text, so that the text
taken before an optimisation pass can be compared with the text taken after it.
The printer is a depth-first, pre-order walker over a forest of nodes. It keeps two
pieces of state: an append-only `output` string and a `visited` set of node
identities. A node already in `visited` is skipped together with its subtree.
Each node kind has its own formatting rule, and a kind without a rule prints an
"Unknown Node" line instead of failing.

Layout:

- `ast.dfy` (module `Ast`) holds the tree. It is an arena `seq<Node>`, and a
  node's identity is its index, which plays the part of Go pointer identity.
  Each node carries a `Kind` with the attributes the printer reads, plus its
  generic child list. `WellFormed` says that no child, contract-body,
  struct-member or declared-type reference dangles.
- `render.dfy` (module `Render`) says what the printer computes, as functions
  on a `State` (output, visited, and a log `fired` of the nodes whose formatter
  the traversal dispatched). `Walk` is the traversal and `Format` the per-kind
  formatter. Both are proved to terminate on the measure "arena nodes not yet
  visited".
- `render_proofs.dfy` (module `RenderProofs`) holds the properties of `Walk`
  and `Format`.
- `printer.dfy` (module `Printer`) holds the `Printer` class. Its fields are
  `output`, `visited` and a ghost `fired` log. `Print`, the two traversals,
  `VisitNode` and the contract and struct visitors are proved to change them
  exactly as `Walk` or `Format` does. The one-line visitors and
  `WriteContractHeader` state directly the text they append and what else
  changes. The constructor starts from the empty state, and `Output` changes
  nothing. `Valid()` says that no node's formatter has been dispatched twice
  over the printer's lifetime, and every method that changes state keeps it.

Differences from the Go code, all without effect on the printed text:

- The two Go visitors for state variables and parameters have identical
  bodies. Here they are one method, `VisitVariableDeclaration`; the node's
  `form` field records which Go variant it is.
- A variable-declaration node that is neither a state variable nor a
  parameter matches neither Go type assertion and prints nothing. Here that
  is the kind `OtherVariableDeclaration`.
- The header part of `VisitContractDefinition` (name and base-name loop) is
  its own method, `WriteContractHeader`, which appends to `output` in the same
  order.
- `traverseStructMembers` is never called: the struct visitor uses
  `traverseNodes`. It is still modelled, as `TraverseStructMembers`, and its
  contract is the same `Walk` as `TraverseNodes`. That contract is the proof
  that the two routines agree.

## Model

| member | source | states |
|---|---|---|
| Render.Indent | printer/printer.go:114 | The indent at depth d is exactly 2·d characters, all spaces. |
| Render.InferVisibility | printer/printer.go:142-155 | The result is one of public/internal/private/external/unknown, and it is "unknown" exactly when the visibility is none of the four named ones. |
| Render.Walk | printer/printer.go:35-47 | The traversal terminates: each unvisited node it meets is marked before anything else happens, so the set of unvisited arena nodes shrinks. Visited only grows, the old output is a prefix of the new, and the log only grows. |
| Render.Format | printer/printer.go:63-107 | Every kind is formatted; an unrecognised kind prints its diagnostic line instead of failing. Visited only grows and the old output is a prefix of the new. |
| Render.CalleeName | printer/printer.go:110-113 | The callee's name when the call's expression is a primary expression, and the empty string for any other callee. |
| Render.JoinNames | printer/printer.go:162-167 | No names give the empty string and one name gives that name alone. Otherwise the text starts with the first name, with no separator in front of it. |
| Render.Line | printer/printer.go:101-204 | The text of each one-line kind. A source unit and an unmatched variable declaration give nothing. An identifier gives its bare name, with no indent and no newline. A declaration line ends "; " plus newline and a call line ends "(args) " plus newline, both with the trailing space. A function line ends " {" plus newline. |
| Render.ContractHeader | printer/printer.go:158-169 | Starts with indent + "Contract " + name. The first base name follows the name directly, with no separator, because the " is " is commented out. With no bases it is exactly indent + "Contract " + name + " {" + newline. It always ends " {" + newline. |
| Render.StructHeader | printer/printer.go:176 | indent + "struct " + name, then " {" + newline: 2·depth + name length + 10 characters. |
| Render.Closing | printer/printer.go:171 | The closing line of a contract (and of a struct, printer.go:180): exactly the block's own indent followed by "}" and a newline. |
| RenderProofs.IndentStep | printer/printer.go:104 | One level deeper is the parent's indent plus exactly two spaces. |
| RenderProofs.InferVisibilityDistinct | printer/printer.go:142-155 | The four named visibilities map to four different strings. |
| RenderProofs.JoinNamesSnoc | printer/printer.go:162-167 | Adding one more base name adds ", " and the name, or just the name when it is the first. |
| RenderProofs.JoinNamesPrefixStep | printer/printer.go:162-167 | One iteration of the base-name loop extends the output from the join of the first i names to the join of the first i+1. |
| RenderProofs.LineShape | printer/printer.go:123-205 | Every kind that prints a line of its own starts it with its indent and ends it with a newline. |
| RenderProofs.WalkMarksAll | printer/printer.go:36-45 | After a walk, every node of the list is visited, whether it was skipped or formatted. |
| RenderProofs.WalkSkipsVisited | printer/printer.go:36-39 | A list whose nodes are all visited is skipped entirely. Nothing is appended, nothing is marked, and no subtree is entered. |
| RenderProofs.SecondPrintAddsNothing | printer/printer.go:29-39 | Printing the same roots again on the same printer leaves output and visited set unchanged. |
| RenderProofs.WalkFiresOnce | printer/printer.go:36-45 | A walk dispatches formatters only for nodes that were unvisited when it started. From a state where no node was dispatched twice, it reaches such a state again. |
| RenderProofs.FormatFiresOnce | printer/printer.go:157-181 | The same at-most-once property for the nested walks of contract bodies and struct members. |
| RenderProofs.WalkCovers | printer/printer.go:40-45 | Every node whose formatter a walk runs has all its children, and its body or members, visited when the walk ends. |
| RenderProofs.FormatCovers | printer/printer.go:170-179 | The same coverage property for the nested walk of a contract body or struct member list. |
| RenderProofs.WalkBounded | printer/printer.go:36-46 | A walk runs at most as many formatters as the arena has unvisited nodes at its start. |
| RenderProofs.DeclaredTypeNeverListed | printer/printer.go:183-205 | A variable declaration marks its type node visited, so no later walk runs that node's formatter, and no "TypeName:" line is printed for it. |
| RenderProofs.ContractLayout | printer/printer.go:157-172 | Contract output starts with the header (the name, then the base names joined by ", ", then " {"). It ends with "}" on a line at the contract's own indent, and the whole body is visited. |
| RenderProofs.UnknownKindContinues | printer/printer.go:103-104 | An unvisited node without a rule appends indent + "Unknown Node: " + kind name + newline, is dispatched, and still has its children walked. |
| Printer.Printer.constructor | printer/printer.go:17-22 | A new printer has empty output, an empty visited set and satisfies the lifetime invariant. |
| Printer.Printer.Output | printer/printer.go:24-26 | Returns the output accumulated so far. |
| Printer.Printer.Print | printer/printer.go:29-32 | The new state is the walk of the root's nodes at depth 0 from the old state. The output only grows, and no formatter is dispatched twice over the printer's lifetime. |
| Printer.Printer.TraverseNodes | printer/printer.go:35-47 | The loop with its skip, mark, format and recurse steps changes the state exactly as `Walk` does, and keeps the at-most-once invariant `Valid()`. |
| Printer.Printer.TraverseStructMembers | printer/printer.go:49-61 | The struct-member routine changes the state exactly as `Walk` does, so it agrees with `TraverseNodes`; it keeps `Valid()`. |
| Printer.Printer.VisitNode | printer/printer.go:63-107 | Dispatch by kind changes the state exactly as `Format` does. An identifier appends its bare name. An unknown kind appends its diagnostic line. `Valid()` is kept. |
| Printer.Printer.VisitFunctionCall | printer/printer.go:109-116 | Appends indent + callee name + "(args) " + newline, where the callee name is "" unless the callee is a primary expression. |
| Printer.Printer.VisitSourceUnit | printer/printer.go:118-121 | Changes nothing. |
| Printer.Printer.VisitPragma | printer/printer.go:123-125 | Appends indent + pragma text + newline, and nothing else changes. |
| Printer.Printer.VisitImport | printer/printer.go:127-129 | Appends indent + "Import: " + name + newline. |
| Printer.Printer.VisitModifierDefinition | printer/printer.go:131-133 | Appends indent + "Modifier: " + name + newline. |
| Printer.Printer.VisitFunctionDefinition | printer/printer.go:136-140 | Appends indent + "function " + name + "() " + inferred visibility + " {". No closing brace is ever printed for it. |
| Printer.Printer.WriteContractHeader | printer/printer.go:158-169 | Appends exactly the contract header: indent, "Contract ", the name, the base names joined by ", ", then " {" and a newline. |
| Printer.Printer.VisitContractDefinition | printer/printer.go:157-172 | Header, then the body walked at depth+1, then "}" at the contract's indent: the state changes exactly as `Format` does, and `Valid()` is kept. |
| Printer.Printer.VisitStructDefinition | printer/printer.go:174-181 | "struct name {", then the members walked at depth+1, then "}" at the struct's indent, exactly as `Format` does; `Valid()` is kept. |
| Printer.Printer.VisitVariableDeclaration | printer/printer.go:183-201 | Appends indent + type name + " " + name + "; " + newline, and adds the type node, and nothing else, to visited. |
| Printer.Printer.VisitTypeName | printer/printer.go:203-205 | Appends indent + "TypeName: " + name + newline. |

## Left out

- tests/system_test.go is not part of this model. It covers file lookup, parsing, reference resolution and the optimiser passes, all in external code, and compares text from a different printer.
- The external node and enum types become the `Kind` datatype. A node's Go type and kind tag are assumed to agree, so the type-assertion panics in `visitNode` are not modelled.
- Kind names and visibilities are abstract: the name in the "Unknown Node" line is a string attribute of the node, and a visibility outside the four named ones is kept only by its code. Formatting beyond plain concatenation is not modelled.
- Printer.Printer.Print: the source has no precondition. `Valid()` is a ghost invariant that the constructor establishes and `Print` preserves, so every printer created through the constructor meets it.
- Nil attribute pointers: in Go a declaration without a type node (printer/printer.go:186, :196), a nil base contract or a base contract without a name (printer/printer.go:166) panics. The `Kind` attributes are plain values that are always present, so the model cannot express these nodes and always prints. `WellFormed` requires a declaration's type node to lie in the arena; that its `typeName` is that node's name is assumed, not checked.
- Depth is a natural number. In Go a negative depth would make `strings.Repeat` panic, but the printer only ever starts at 0 and adds 1.
- The `fired` log is instrumentation for stating "formatted at most once". It records dispatches made by the traversal, not direct calls of the public `Visit*` methods.
- Concurrency: the printer is single-threaded and not safe for concurrent use, and nothing here models a second thread.
