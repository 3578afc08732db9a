# Varlink IDL language server: semantic layer

This project models the semantic layer of the Varlink IDL language server (the
`src/capabilities` handlers) in Dafny, and proves properties of the model.
The handlers answer LSP requests over one parsed document. That document is a
flattened syntax tree, a `seq<Node>`:

- The nodes are in pre-order, sorted by start position.
- A node's index is its id, and the root is node 0.
- Each node has a kind, an LSP range (the end is exclusive), a parent index
  smaller than its own, and its source text. The text is `None` when the text
  could not be extracted.
- Declarations also have the indices of their name child and keyword child,
  and an enum has the indices of its members.

In the Rust code, text extraction can fail. Where the code uses `unwrap` on
such a result, the model has a precondition saying the text is readable. Where
the code propagates the failure with `?`, the model returns
`Err(UnreadableText(node))`.

Modules, one per handler file plus shared helpers:

- `Lsp`: the protocol data types (`Position`, `Range`, `Diagnostic`, `TextEdit`, ...).
- `Syntax`: the node arena, its well-formedness predicates (`Sorted`,
  `ParentsPrecede`, `Linked`), the ancestor chain, and the index filters used
  as reference definitions (`IndicesOfKinds`, `TypedefsNamed`, `TyperefsNamed`).
- `Seqs`: concatenation of a sequence of sequences.
- `Util`: `prec_at`, `leaf_at`, `most_specific_at`, `capture_at`.
- `Diagnostics`: occurrence maps, duplicate and unknown-type errors, and the
  trailing-newline check.
- `GotoDefinition`, `References`, `Rename`, `Hover`: name resolution.
- `Text`: ASCII trimming.
- `Completion`: the completion context and typedef-name deduplication.
- `SelectionRange`, `FoldingRange`, `SemanticTokens`, `Symbols`: the per-node
  projections.

Four behaviours of the code are easy to misread. The model follows the code
in each:

- Parse errors are passed through as they are. They are not de-duplicated
  (`src/capabilities/diagnostics.rs:25-28`).
- The docstring scan of hover passes over nodes that are not comments. It does
  not stop at them (`src/capabilities/hover.rs:45-60`).
- A type reference is unknown only when no typedef has its name. A duplicated
  typedef still makes the name known (`src/capabilities/diagnostics.rs:151-162`).
- Diagnostics key a type reference by the text and range of its name child
  (`src/capabilities/diagnostics.rs:67-74`). Rename, goto-definition,
  references and hover use the type reference node's own text and range.

## Model

| member | source | states |
|---|---|---|
| Util.PartitionPoint | src/capabilities/util.rs:19-22 | the cut-off splits the start-sorted nodes into those starting at or before pos and those starting after it |
| Util.PrecAt | src/capabilities/util.rs:18-29 | the candidate is the last node starting at or before pos; None exactly when no node starts by pos |
| Util.LeafAt | src/capabilities/util.rs:32-41 | a leaf covers pos (start <= pos < end) and no later node starts by pos; None exactly when no node starts by pos or the last one that does ends at or before pos |
| Util.LeafIsMostSpecific | src/capabilities/util.rs:33-61 | whenever leaf_at finds a node, most_specific_at finds the same node |
| Util.LeafAtMissesEnclosing | src/capabilities/util.rs:33-40 | leaf_at looks only at the one candidate: in a two-node tree the root covers pos, yet leaf_at gives None while most_specific_at finds the root |
| Util.WalkUpToCover | src/capabilities/util.rs:48-59 | the inner walk returns the first ancestor-or-self whose end is after pos; None exactly when the whole chain ends by pos |
| Util.MostSpecificAt | src/capabilities/util.rs:44-62 | the result is the first (deepest) node on the candidate's parent chain whose end lies after pos, so it covers pos and no deeper node on that chain ends after pos; Some exactly when some node on the candidate's chain ends after pos |
| Util.ChainStartsBy | src/capabilities/util.rs:54-57 | every ancestor of a node that starts by pos also starts by pos, so a walk that checks only the end still yields a covering node |
| Util.WalkUpToKind | src/capabilities/util.rs:66-74 | the inner walk returns the nearest ancestor-or-self of the given kind; None exactly when the chain has none |
| Util.CaptureAt | src/capabilities/util.rs:65-77 | the result is the nearest ancestor-or-self of most_specific_at's node with the requested kind: no deeper node on that chain has the kind; None exactly when there is no specific node or its chain has no node of that kind |
| Diagnostics.OccurrenceMap | src/capabilities/diagnostics.rs:40-74 | a name is a key exactly when it occurs, and its list holds its ranges in the order they were met |
| Diagnostics.Keys | src/capabilities/diagnostics.rs:164-197 | the keys visited are distinct and are exactly the names that occur |
| Diagnostics.RangesNamedNonEmpty | src/capabilities/diagnostics.rs:40-47 | a name has a recorded range exactly when some occurrence carries it |
| Diagnostics.DistinctNamesIffSingletons | src/capabilities/diagnostics.rs:86 | the names are pairwise distinct exactly when no name has two or more ranges |
| Diagnostics.DuplicatesOf | src/capabilities/diagnostics.rs:172-196 | a name with n > 1 ranges gets n errors, one at each range, each relating the other n-1 ranges with "also declared here"; a single range gets none |
| Diagnostics.UnknownsOf | src/capabilities/diagnostics.rs:154-160 | one "unknown type" error per recorded range, at that range |
| Diagnostics.DuplicateDiagnostics | src/capabilities/diagnostics.rs:164-197 | every duplicate diagnostic is an error carrying the duplicate message of some name |
| Diagnostics.DuplicatesReportedPerName | src/capabilities/diagnostics.rs:164-197 | the diagnostics for a name are exactly its per-occurrence duplicates: n of them when it occurs n > 1 times, none otherwise |
| Diagnostics.NoDuplicatesIffDistinct | src/capabilities/diagnostics.rs:86 | a group reports nothing exactly when its names are pairwise distinct |
| Diagnostics.NameOccurrences | src/capabilities/diagnostics.rs:40-74 | the occurrences of a kind follow the nodes of that kind one for one, in document order |
| Diagnostics.ScopesBelow | src/capabilities/diagnostics.rs:76-84 | one scope per struct or enum, in document order, each with its own occurrence list |
| Diagnostics.ScopedDiagnostics | src/capabilities/diagnostics.rs:76-148 | every per-scope diagnostic is an error |
| Diagnostics.ScopedEmptyIffEachScopeDistinct | src/capabilities/diagnostics.rs:76-148 | the scoped checks report nothing exactly when each struct's fields and each enum's members are distinct within that scope; the same name in two scopes is not reported |
| Diagnostics.UnknownDiagnostics | src/capabilities/diagnostics.rs:151-162 | every unknown-type diagnostic is an error without related information |
| Diagnostics.UnknownReportedPerName | src/capabilities/diagnostics.rs:151-162 | a referenced name with no typedef gets one error per reference; a name with any typedef, even a duplicated one, gets none |
| Diagnostics.TrailingNewline | src/capabilities/diagnostics.rs:199-220 | exactly one zero-width error at (row count, 0) when the document has nodes and does not end with a top-level Eol, none otherwise |
| Diagnostics.Diagnose | src/capabilities/diagnostics.rs:17-230 | parse errors come first, unchanged; the rest are errors from the duplicate, unknown-type and newline checks; the request fails exactly when the newline check needs a row count above u32 |
| Diagnostics.TablesDuplicatesReported | src/capabilities/diagnostics.rs:164-197 | in the whole output, the duplicate diagnostics of a typedef, error or method name are exactly that name's per-occurrence duplicates |
| Diagnostics.GlobalDuplicatesReported | src/capabilities/diagnostics.rs:164-197 | the same, stated over the document's nodes of that kind |
| Diagnostics.TablesUnknownTypesReported | src/capabilities/diagnostics.rs:151-162 | in the whole output, the unknown-type diagnostics of a name are one per reference when it has no typedef, none otherwise |
| Diagnostics.UnknownTypesReported | src/capabilities/diagnostics.rs:151-162 | the same, stated over the document's typedef and typeref nodes |
| GotoDefinition.Candidates | src/capabilities/goto_definition.rs:17-29 | the candidates are exactly the Typerefs of the slice whose range contains pos with the end included, in order |
| GotoDefinition.DefinitionsBelow | src/capabilities/goto_definition.rs:38-52 | one location per typedef of that name, at its name's range, in document order |
| GotoDefinition.Definitions | src/capabilities/goto_definition.rs:38-53 | the locations are those of every typedef named like the reference, in document order |
| GotoDefinition.GotoDefinition | src/capabilities/goto_definition.rs:17-53 | None exactly when no typeref touches pos; otherwise the definitions of the touching typeref's text, all with the request URI |
| GotoDefinition.DefinitionFound | src/capabilities/goto_definition.rs:38-52 | every typedef with that name appears among the definitions |
| References.ReferencesBelow | src/capabilities/references.rs:23-36 | one location per typeref with that text, at the typeref's range, in document order |
| References.ReferencesTo | src/capabilities/references.rs:23-36 | the locations are those of every typeref with that text |
| References.References | src/capabilities/references.rs:18-41 | None exactly when no typedef encloses pos; otherwise every typeref naming the captured typedef, never the typedef itself |
| References.ReferenceFound | src/capabilities/references.rs:23-36 | every typeref with that text appears among the references |
| Rename.PrepareRename | src/capabilities/rename.rs:15-29 | the leaf's range exactly when there is a leaf and it is a Name or InterfaceName, and that range covers pos |
| Rename.TargetsBelow | src/capabilities/rename.rs:53-71 | the targets are exactly the typedefs named and typerefs reading the old name, in document order |
| Rename.TargetCount | src/capabilities/rename.rs:53-71 | the number of targets is the number of such typedefs plus the number of such typerefs |
| Rename.TypeEditsBelow | src/capabilities/rename.rs:53-71 | one edit per target, at a typedef's name range or at the typeref's range, each writing the new name |
| Rename.TypeEdits | src/capabilities/rename.rs:53-71 | one edit per typedef and typeref of the old name, in document order |
| Rename.RenameIdentifier | src/capabilities/rename.rs:49-79 | fails exactly when the leaf's text is unreadable; otherwise one document entry at the request URI whose edits all write the new name: the type edits under a Typedef or Typeref parent, the leaf alone otherwise |
| Rename.Rename | src/capabilities/rename.rs:31-80 | no edit exactly when there is no leaf or it is not an identifier; failure exactly when the identifier's text is unreadable |
| Rename.EditIsDefinitionOrReference | src/capabilities/rename.rs:53-71 | every type edit sits on a definition found by goto-definition or a reference found by find-references |
| Rename.DefinitionEdited | src/capabilities/rename.rs:56-61 | every definition of the old name is edited |
| Rename.ReferenceEdited | src/capabilities/rename.rs:63-70 | every reference to the old name is edited |
| Rename.TypeRenameIsDefinitionsPlusReferences | src/capabilities/rename.rs:53-71 | the ranges a type rename edits are exactly the definition ranges plus the reference ranges |
| Text.TrimStartMatches | src/capabilities/hover.rs:20-23 | `trim_start_matches('#')`: the result is a suffix of the input, everything dropped is the character, and the first kept character is not (the dropped run is maximal) |
| Text.TrimStart | src/capabilities/hover.rs:20-23 | the result is a suffix of the input, everything dropped is whitespace, and the result does not start with whitespace |
| Text.TrimEnd | src/capabilities/completion.rs:77 | the result is a prefix of the input, everything dropped is whitespace, and the result does not end with whitespace |
| Text.Trim | src/capabilities/completion.rs:77 | the result is the input's slice starting after its leading whitespace, only whitespace lies before and after that slice, the result neither starts nor ends with whitespace, and it is empty exactly when the input is all whitespace |
| Text.TrimmedIsMiddle | src/capabilities/completion.rs:77 | cutting a maximal whitespace prefix and then a maximal whitespace suffix leaves the middle slice of the input, with whitespace only outside it |
| Text.TrimIdempotent | src/capabilities/completion.rs:77 | trimming twice is trimming once |
| Hover.DocLine | src/capabilities/hover.rs:20-23 | a shown comment line is a suffix of the raw line; the line loses a maximal run of '#' and then a maximal run of whitespace, and nothing else |
| Hover.DocBlockIsInOrder | src/capabilities/hover.rs:19-24 | the docstring block lists the lines reversed, bottom-to-top becoming top-to-bottom, each followed by a newline |
| Hover.Markup | src/capabilities/hover.rs:16-33 | the value starts with the varlink code fence, has nothing more exactly when there is no docstring, and otherwise continues with the separator and the reversed lines; the range is the one given |
| Hover.DocScan | src/capabilities/hover.rs:45-60 | the scan collects, bottom-to-top (strictly decreasing indices), comments at character 0 at or before the start node, the k-th on a line at or above the threshold minus k |
| Hover.DocstringOf | src/capabilities/hover.rs:36-63 | every docstring line is a comment at or before the node, the k-th at most k+1 lines above it |
| Hover.DocstringStartsAbove | src/capabilities/hover.rs:45-53 | a comment at character 0 on the line right above the node is the first docstring line |
| Hover.ScanPassesOver | src/capabilities/hover.rs:45-60 | non-comment nodes at or above the threshold line are passed over: the scan continues as if it started below them |
| Hover.ScanEnds | src/capabilities/hover.rs:45-49 | the scan collects nothing when, after passing over non-comments, it meets a node below the threshold or an indented comment |
| Hover.ScanTakesBlock | src/capabilities/hover.rs:45-60 | a contiguous block of column-0 comments on lines l, l-1, ... is collected whole, nearest first, and the scan then resumes above the block with the threshold lowered by the block's size |
| Hover.DocstringStartsWithBlock | src/capabilities/hover.rs:36-63 | the docstring of a node with a block of column-0 comments on the lines right above it starts with exactly those comments, nearest first |
| Hover.DocstringIsBlock | src/capabilities/hover.rs:36-63 | when the line above such a block holds no further reachable node, the docstring is exactly the block |
| Hover.DocstringEmpty | src/capabilities/hover.rs:45-49 | the docstring is empty when the first node above that is not passed over lies below the line right above the node (a blank line) or is an indented comment |
| Hover.DocstringTexts | src/capabilities/hover.rs:51 | the texts are those of the collected comments, in the same order |
| Hover.FindDefFromDescribes | src/capabilities/hover.rs:77-87 | the search ends with no definition, the unique one, or ambiguity exactly when zero, one, or two or more typedefs have the name |
| Hover.FindDef | src/capabilities/hover.rs:77-87 | a unique definition is found exactly when one typedef has the name, and it is that typedef |
| Hover.HoverOf | src/capabilities/hover.rs:91-102 | fails exactly when the node's text is unreadable; otherwise the markup of its docstring and text at its range |
| Hover.Hover | src/capabilities/hover.rs:65-107 | None for a non-identifier leaf; on a typeref the hover of its unique typedef, None for zero or several; otherwise the hover of the parent |
| Completion.SnippetItems | src/capabilities/completion.rs:79-89 | one snippet item per table entry, in table order, with its label and insert text |
| Completion.TypedefNamesBelow | src/capabilities/completion.rs:108-122 | the names listed are exactly the readable typedef names; unreadable ones are passed over |
| Completion.FirstIndex | src/capabilities/completion.rs:108-122 | the index of the first occurrence of a name |
| Completion.DedupMembers | src/capabilities/completion.rs:108-122 | deduplication keeps every name exactly once |
| Completion.DedupOrder | src/capabilities/completion.rs:108-122 | deduplication keeps the order of first occurrence |
| Completion.DedupSpec | src/capabilities/completion.rs:108-122 | distinct, same names, first-occurrence order together |
| Completion.FirstIndexPrefix | src/capabilities/completion.rs:108-122 | a first occurrence inside a prefix is the first occurrence overall |
| Completion.UniqueTypedefNames | src/capabilities/completion.rs:108-122 | the set-guarded loop yields the distinct readable typedef names in first-occurrence order |
| Completion.TypeItems | src/capabilities/completion.rs:98-122 | the six builtins as snippet items first, then one class item per name |
| Completion.Completion | src/capabilities/completion.rs:65-126 | always a list: the four declaration snippets on a blank prefix, the type items in a type context, nothing otherwise; the two cases never meet |
| Completion.ClassItemsAreTypedefNames | src/capabilities/completion.rs:108-122 | after the builtins come class items naming every readable typedef exactly once |
| SelectionRange.MkRange | src/capabilities/selection_range.rs:29-33 | the head is the node's range, with a parent exactly when the node has one |
| SelectionRange.ChainRanges | src/capabilities/selection_range.rs:29-33 | the ranges of a chain of nodes, one per node |
| SelectionRange.MkRangeFollowsChain | src/capabilities/selection_range.rs:29-33 | the nested ranges are those of the node and its ancestors up to the root, one level per parent |
| SelectionRange.SelectionRanges | src/capabilities/selection_range.rs:13-27 | one selection range per position, in order, headed by the leaf's range (which covers the position) and climbing to the root |
| FoldingRange.FoldsBelow | src/capabilities/folding_range.rs:19-41 | one fold per method, error, typedef, struct or enum node, in document order, copying its range |
| FoldingRange.FoldingRanges | src/capabilities/folding_range.rs:12-44 | always a list, its folds following the foldable nodes one for one with both ends and characters copied |
| FoldingRange.FoldedIff | src/capabilities/folding_range.rs:23-38 | a node gets a fold exactly when its kind folds (a corollary of FoldingRange.FoldingRanges' contract and the membership contract of IndicesOfKinds) |
| SemanticTokens.PositionOf | src/capabilities/semantic_tokens.rs:79 | the position is the first index holding the type; None exactly when the type is absent |
| SemanticTokens.TypeIndex | src/capabilities/semantic_tokens.rs:18-33 | the index a type is sent as holds that type in the supported list |
| SemanticTokens.PositionIsTypeIndex | src/capabilities/semantic_tokens.rs:18-33 | looking a type up in the supported list always succeeds and yields its index |
| SemanticTokens.TypeIndexInjective | src/capabilities/semantic_tokens.rs:18-33 | every index is below 10, and distinct types get distinct indices |
| SemanticTokens.NodeTokens | src/capabilities/semantic_tokens.rs:44-65 | a node's tokens pair each anchor range with its kind's token types, without modifiers |
| SemanticTokens.DeclarationTokensOnTheWire | src/capabilities/semantic_tokens.rs:87-187 | a method sends KEYWORD then METHOD, a typedef KEYWORD then TYPE, an error KEYWORD then EVENT, on the keyword then the name |
| SemanticTokens.InterfaceTokensOnTheWire | src/capabilities/semantic_tokens.rs:292-317 | an interface declaration sends INTERFACE on the keyword, then NAMESPACE on the name |
| SemanticTokens.EnumTokensOnTheWire | src/capabilities/semantic_tokens.rs:125-143 | an enum sends one ENUM_MEMBER per member, in member order |
| SemanticTokens.OtherTokensOnTheWire | src/capabilities/semantic_tokens.rs:70-337 | a struct field sends PROPERTY on its name, type references and builtins TYPE, comments COMMENT, arrows DECORATOR; other kinds send nothing |
| SemanticTokens.PerNode | src/capabilities/semantic_tokens.rs:44-65 | one token list per node, in document order |
| SemanticTokens.Tokens | src/capabilities/semantic_tokens.rs:44-65 | every token has a declared type and no modifiers |
| SemanticTokens.NodeTokensInStream | src/capabilities/semantic_tokens.rs:44-65 | each node's tokens sit in the stream right after those of the nodes before it |
| Symbols.KindOf | src/capabilities/document_symbols.rs:52 | interface declarations are namespaces, errors events, methods methods and typedefs classes, and only those |
| Symbols.DocumentSymbolsBelow | src/capabilities/document_symbols.rs:27-39 | fails exactly when some declaration's name is unreadable, naming the first such name; otherwise one symbol per declaration, in document order |
| Symbols.DocumentSymbols | src/capabilities/document_symbols.rs:13-128 | one symbol per declaration with name text, kind, node range and name range; a name that cannot be read fails the request |
| Symbols.SymbolsBelow | src/capabilities/symbols.rs:18-35 | with readable names, one symbol per declaration, in document order |
| Symbols.Symbols | src/capabilities/symbols.rs:18-119 | one symbol per declaration with name text, kind, node range and name range |
| Symbols.SymbolShape | src/capabilities/symbols.rs:44-54 | each symbol's range is its node's, its selection range its name's, and detail, tags and children are empty |
| Symbols.ListsDeclarationsUnique | src/capabilities/symbols.rs:18-35 | the declaration list of a document is unique |
| Symbols.DocumentSymbolsAgree | src/capabilities/symbols.rs:121-127 | the fallible and the unwrapping versions agree whenever names are readable, and the fallible one fails otherwise |
| Symbols.ToWorkspace | src/capabilities/symbols.rs:142-152 | a workspace symbol keeps name and kind, takes the file URI and the full range, and has no container or tags |
| Symbols.FileSymbols | src/capabilities/symbols.rs:135-153 | one workspace symbol per document symbol of the file, in order |
| Symbols.PerFile | src/capabilities/symbols.rs:135-153 | one list per file, in file order |
| Symbols.WorkspaceSymbols | src/capabilities/symbols.rs:129-157 | always a list, holding exactly the symbols of the files, none with a container or tags |
| Symbols.WorkspaceSymbolsInFileOrder | src/capabilities/symbols.rs:135-155 | each file's whole symbol list sits in the workspace list, in its own order, right after the lists of the files before it |

## Left out

- Database access and parsing: `get_file_from_db`, `get_ast` and the parse-error accumulator. The model takes the node sequence, the parse errors and the request URI as inputs.
- `src/main.rs`: the stdio connection, the session and the request loop. This is protocol plumbing.
- `src/capabilities/formatting.rs`: it hands the whole document to an external formatter.
- `codegen/src/main.rs`: it writes generated code to disk through an external generator.
- The encoding inside `SemanticTokensBuilder`. The model states the stream of pushed tokens.
- The nesting inside `DocumentSymbolsBuilder::finalize`. The model states the list of pushed symbols. Symbols.WorkspaceSymbols takes that list as each file's symbols, as if finalize kept every symbol at top level.
- The `dispatch!` macros: modelled as one handler per node kind.
- Hash map iteration order in diagnostics. The model walks names in first-occurrence order. Every property about the output is stated per name, by filtering on the message, so it holds for any order.
- Unicode whitespace in `trim` and `trim_start`: only ASCII whitespace (space, tab to carriage return) is trimmed.
- Completion.Completion and Completion.LineBefore: an LSP `character` counts UTF-16 code units, while `src/capabilities/completion.rs:77` slices the line's UTF-8 bytes with it. The model slices a sequence of characters, so on a line with non-ASCII text before the cursor the model's prefix differs from the code's, and the code's panic on a slice inside a multi-byte character is not modelled.
- `subtree_at` is not part of this model. The goto-definition slice is a pair of parameters `lo..hi`.
- The document's `row_count` and the completion line (read with an unwrapped `get_row`) are parameters.
- Hover.DocScan: the `i32` cast of the start line is modelled as an unbounded integer, because lines fit in `i32` for any realistic document.
- Hover.Hover: the three-argument `leaf_at` of the hover handler is taken to behave like `Util.LeafAt` on the line and character.
- SemanticTokens.TypeIndex: `position` over the supported-types list is modelled by a table, and SemanticTokens.PositionIsTypeIndex proves the two agree.
- GotoDefinition.GotoDefinition: the assertion that at most one typeref touches the position is a precondition.
- Symbols.Symbols, SelectionRange.SelectionRanges, Hover.Hover, Rename.Rename, References.References and GotoDefinition.GotoDefinition require what the code unwraps (a readable text, an existing leaf or parent), because the code panics otherwise.
- Completion.Completion and Completion.LineBefore require `1 <= character <= |line| + 1`, because `src/capabilities/completion.rs:77` panics otherwise: `character - 1` underflows at character 0, and the slice ends past the line when character exceeds its length plus one.
- Diagnostics.Diagnose requires DiagnosticTextsReadable (every name and type reference text the checks read), because `src/capabilities/diagnostics.rs` unwraps those texts (lines 44, 53, 62, 71, 81 and 118) and panics otherwise.
