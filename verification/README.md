# slang core models in Dafny

This project models three self-contained pieces of the slang SystemVerilog
front end and proves what their code and documentation promise.

- **`DepTracker`** (`deptracker.dfy`) is the syntax-tree dependency tracker.
  - The constructor turns each tree's declared and referenced module names into three tables:
    - `moduleToTree`: name → declaring tree.
    - `treeToDeps`: tree → resolved dependency trees and missing names.
    - `missingNames`: unresolved name → referencing trees.
  - `getTreesFor` runs a depth-first search with visited and in-progress sets. It answers which trees a request needs, dependencies first.
  - Trees are opaque ids. The parser metadata (declared and referenced names) is an input.
  - The search is proved to return exactly the reachable trees, each once, in dependency order. On an acyclic graph that order is topological. It ends on cycles, and the missing names are the in-order concatenation for the listed trees.
- **`SourceManager`** (`sourcemanager.dfy`) is the buffer table behind source locations.
  - An append-only table maps each buffer id to a file entry or a macro-expansion entry. A path-keyed cache holds each file's shared data, and a per-buffer map holds diagnostic directives.
  - The queries are functions of the table: classification, one-step and full chain walks, and the macro name. The mutators are methods of a `SourceManager` class. The chain walks are loops proved against the recursive query functions.
  - Every walk is proved to end at a non-macro location, and at a file location when the expansions were made from real locations. Every mutator is proved to leave the walks of existing locations unchanged.
- **`CSTSerializer`** (`cstserializer.dfy`) is the concrete-syntax-tree JSON serializer.
  - The JSON writer is an append-only log of calls: start/end object, start/end array, property, value.
  - The visitor and serializer classes append to that log. Each method is proved to append exactly the events that a specification function gives for its input.
  - A stack machine reads a call sequence back. It accepts exactly the call sequences of one well-formed JSON document and records each key with its depth. The events for every node, token and tree are proved to form one JSON value whose keys are exactly the expected ones, in order.

## Model

| member | source | states |
|---|---|---|
| DepTracker.DeclareAllSpec | source/driver/DepTracker.cpp:19-21 | `emplace` of a tree's names: the keys become the old keys plus the names, an existing name keeps its tree, and a new name maps to the declaring tree |
| DepTracker.DeclaredModulesKeys | source/driver/DepTracker.cpp:15-21 | a name is a key of `moduleToTree` exactly when some input tree declares it |
| DepTracker.FirstDeclarerWins | source/driver/DepTracker.cpp:15-21 | when several trees declare a name, the first of them in the input owns it |
| DepTracker.DeclaredModulesValues | source/driver/DepTracker.cpp:15-24 | every declaring tree is one of the trees whose references were recorded |
| DepTracker.ReferencesByTreeKeys | source/driver/DepTracker.cpp:24 | the recorded references are keyed by exactly the input trees |
| DepTracker.RecordMetadata | source/driver/DepTracker.cpp:15-25 | the first pass builds the name table and the per-tree references that the declaration functions define |
| DepTracker.FoundTreesMembers | source/driver/DepTracker.cpp:31-34 | a tree is among the resolved trees of a name list exactly when one of the names is declared by it |
| DepTracker.FoundTreesSet | source/driver/DepTracker.cpp:53-58 | the trees found for a list of names are the declarers of the declared names among them; undeclared names add nothing |
| DepTracker.SetToSeq | source/driver/DepTracker.cpp:43 | turning the missing-name set into a list gives every element once, in an unspecified order |
| DepTracker.FileMissingKeys | source/driver/DepTracker.cpp:36-38 | recording one tree's unresolved names adds exactly those names as keys; existing lists are only extended, and new keys have non-empty lists |
| DepTracker.FileMissingCount | source/driver/DepTracker.cpp:37 | the tree is appended under an unresolved name once per reference to it, and nothing else is added |
| DepTracker.RecordPreservesIndex | source/driver/DepTracker.cpp:28-39 | after each tree is resolved, a key of the missing-name index is exactly an unresolved name, and each referencing tree is listed once per reference |
| DepTracker.ResolveTree | source/driver/DepTracker.cpp:29-44 | one tree's dependencies are the declaring trees of its references, in reference order; its missing names are its unresolved references, each once |
| DepTracker.MissingOfMembers | source/driver/DepTracker.cpp:89-90 | a name is in the concatenated missing list exactly when some listed tree has it as a missing name |
| DepTracker.DependenciesListed | source/driver/DepTracker.cpp:84-88 | every dependency of a tree in a query answer is in the answer too |
| DepTracker.TopologicalWhenAcyclic | include/slang/driver/DepTracker.h:46-47 | on an acyclic graph, every dependency of a listed tree appears before it |
| DepTracker.DependentsNotIncluded | tests/unittests/DepTrackerTests.cpp:127-156 | a tree that no requested tree reaches is not in the answer, so requesting a mid-level module leaves out the modules that depend on it |
| DepTracker.EnterVisit | source/driver/DepTracker.cpp:82 | marking a fresh tree as in progress keeps the search invariant |
| DepTracker.FinishVisit | source/driver/DepTracker.cpp:89-96 | appending a tree after its dependencies, with its missing names, keeps the invariant: no repeats, dependency order, and the missing list as the concatenation for the result |
| DepTracker.SearchComplete | source/driver/DepTracker.cpp:99-107 | a finished search that visited all the roots, and only trees they reach, returns exactly the reachable trees in dependency order with their missing names |
| DepTracker.VisitMeasure | source/driver/DepTracker.cpp:74-82 | each tree entered shrinks the set of trees not yet entered, so the search ends even on cycles |
| DepTracker.AllTreesListed | source/driver/DepTracker.cpp:110-116 | when every dependency is tracked, the full listing holds exactly the tracked trees |
| DepTracker.DepTracker.constructor | source/driver/DepTracker.cpp:10-46 | builds `moduleToTree` with the first declarer winning, the resolved dependencies and deduplicated missing names of each tree, and the exact missing-name index; every dependency target is a tracked tree |
| DepTracker.DepTracker.Visit | source/driver/DepTracker.cpp:73-97 | the recursive visit skips trees already visited or in progress, otherwise visits the dependencies and then appends the tree; it keeps the search invariant and adds only trees the visited tree reaches |
| DepTracker.DepTracker.GetTreesFor | source/driver/DepTracker.cpp:64-108 | returns each tree reachable from the request exactly once, with every requested tree, in dependency order, plus the missing names of the listed trees concatenated in list order |
| DepTracker.DepTracker.GetTreesForNames | source/driver/DepTracker.cpp:48-62 | gives the same answer as `getTreesFor` on the declarers of the requested names; names nobody declares are ignored |
| DepTracker.DepTracker.GetAllSorted | source/driver/DepTracker.cpp:110-117 | equals the query over every tracked tree; when dependencies are closed it lists exactly the tracked trees |
| SourceManager.IsFileLoc | include/slang/text/SourceManager.h:74-75 | a file location is a real location in an existing buffer; a real location that is not one lies in an expansion buffer |
| SourceManager.IsMacroLoc | include/slang/text/SourceManager.h:77-78 | a macro location is exactly a real location that is not a file location |
| SourceManager.IsMacroArgLoc | include/slang/text/SourceManager.h:80-81 | every macro-argument location is a macro location |
| SourceManager.IsIncludedFileLoc | include/slang/text/SourceManager.h:83-84 | an included-file location is exactly a file location whose buffer has a real `includedFrom` |
| SourceManager.IsPreprocessedLoc | include/slang/text/SourceManager.h:86-87 | a preprocessed location is exactly a real location that does not lie in a root file buffer |
| SourceManager.Classification | include/slang/text/SourceManager.h:74-87 | the sentinel is neither file nor macro; a real location is exactly one of them; argument locations are macro locations, included-file locations are file locations, and preprocessed means macro or included file |
| SourceManager.GetIncludedFrom | include/slang/text/SourceManager.h:66-68 | a file buffer's `includedFrom`; a real location comes back only for a file buffer |
| SourceManager.GetExpansionLoc | include/slang/text/SourceManager.h:94-95 | the expansion site of a macro location is issued and lies in an earlier buffer |
| SourceManager.GetExpansionRange | include/slang/text/SourceManager.h:97-98 | the expansion range's ends are issued locations, and its start is the expansion location |
| SourceManager.GetOriginalLoc | include/slang/text/SourceManager.h:100-101 | one step up the chain lands on an issued location in an earlier buffer |
| SourceManager.ExpansionStep | include/slang/text/SourceManager.h:223-229 | the step towards the use site: the original location for an argument entry, the expansion location otherwise; it always lands in an earlier buffer |
| SourceManager.FullyOriginal | include/slang/text/SourceManager.h:103-105 | the walk ends at a non-macro location and returns a non-macro location unchanged |
| SourceManager.FullyExpanded | include/slang/text/SourceManager.h:107-109 | the walk ends at a non-macro location and returns a non-macro location unchanged |
| SourceManager.MacroNameOf | include/slang/text/SourceManager.h:70-72 | empty for a non-macro location; otherwise empty or the name of some body expansion in the table |
| SourceManager.FullyOriginalIsFile | include/slang/text/SourceManager.h:103-105 | when every expansion was made from a real location, the fully original location of a real location is a file location |
| SourceManager.FullyExpandedIsFile | include/slang/text/SourceManager.h:107-109 | when every expansion site is a real location, the fully expanded location of a real location is a file location |
| SourceManager.AppendKeepsWalks | include/slang/text/SourceManager.h:249-250 | appending buffers changes neither walk nor the macro name of a location that already existed |
| SourceManager.AppendKeepsAllWalks | include/slang/text/SourceManager.h:249-250 | after an append, every old location classifies and walks as before |
| SourceManager.NewExpansionWalks | include/slang/text/SourceManager.h:114-120 | the start of a newly appended expansion is a macro location with the given argument flag; its expansion location is the range start, and its walks and macro name continue from the locations it was made from |
| SourceManager.ReplaceFileKeepsWalks | include/slang/text/SourceManager.h:209-212 | replacing a file entry by another file entry, such as one with a new line directive, leaves every walk unchanged |
| SourceManager.GetPreviousLineDirective | include/slang/text/SourceManager.h:218-220 | returns none exactly when no directive is at or before the raw line; otherwise the last directive in the list at or before it |
| SourceManager.PreviousIsGreatest | include/slang/text/SourceManager.h:184-194 | on directives in line order, the one found has the greatest `lineInFile` not after the raw line |
| SourceManager.NatToStringInjective | include/slang/text/SourceManager.h:265 | different counter values have different decimal spellings |
| SourceManager.UnnamedBufferPathsDistinct | include/slang/text/SourceManager.h:265 | distinct counter values give distinct unnamed-buffer paths |
| SourceManager.UpperBound | include/slang/text/SourceManager.h:262-263 | in an offset-sorted directive list, finds the position after every directive at or before the offset and before every later one |
| SourceManager.InsertKeepsSorted | include/slang/text/SourceManager.h:262-263 | inserting at that position keeps the list sorted by offset |
| SourceManager.SourceManager.constructor | include/slang/text/SourceManager.h:39 | starts with an empty table, cache and directive map, a zero counter and proximate paths on |
| SourceManager.SourceManager.IsCached | include/slang/text/SourceManager.h:141-142 | in a well-formed manager a path is cached exactly when some file buffer was loaded from it |
| SourceManager.SourceManager.SetDisableProximatePaths | include/slang/text/SourceManager.h:144-147 | sets the flag and changes nothing else |
| SourceManager.SourceManager.GetFullyOriginalLoc | include/slang/text/SourceManager.h:103-105 | the loop that follows original locations returns the fully original location |
| SourceManager.SourceManager.GetFullyExpandedLoc | include/slang/text/SourceManager.h:107-109 | the loop that follows expansion steps returns the fully expanded location |
| SourceManager.SourceManager.GetMacroName | include/slang/text/SourceManager.h:70-72 | the loop that leaves argument locations for their sites returns the macro name, or empty when none is found |
| SourceManager.SourceManager.VisitDiagnosticDirectives | include/slang/text/SourceManager.h:174-181 | calls the visitor once per buffer with directives, with that buffer's list, and for no other buffer |
| SourceManager.SourceManager.CreateExpansionLoc | include/slang/text/SourceManager.h:114-116 | appends an expansion entry with the given argument flag and an empty name; the new location is a macro location whose walks continue from the given locations; old locations are unaffected |
| SourceManager.SourceManager.CreateNamedExpansionLoc | include/slang/text/SourceManager.h:118-120 | appends a named body expansion that is never an argument entry; its macro name is the given one; old locations are unaffected |
| SourceManager.SourceManager.CacheBuffer | include/slang/text/SourceManager.h:274-275 | caches the contents under the path unless it is cached already, and appends a file entry; the returned buffer shows the cached text |
| SourceManager.SourceManager.AssignBuffer | include/slang/text/SourceManager.h:130-133 | adds a file buffer for the path; afterwards the path is cached |
| SourceManager.SourceManager.AssignText | include/slang/text/SourceManager.h:125-128 | adds a file buffer for the path; for a path not cached before, the buffer's text is the given text |
| SourceManager.SourceManager.AssignUnnamedText | include/slang/text/SourceManager.h:122-123 | adds a file buffer under the next unnamed-buffer path and increments the counter |
| SourceManager.SourceManager.AddLineDirective | include/slang/text/SourceManager.h:149-150 | appends the directive to the file entry the location fully expands to, at that position's raw line; nothing else changes, and every walk is preserved |
| SourceManager.SourceManager.AddDiagnosticDirective | include/slang/text/SourceManager.h:152-154 | inserts the directive into the list of the buffer the location fully expands to, after every directive at the same or an earlier offset; the table is unchanged |
| CSTSerializer.TriviaTextAppend | source/syntax/CSTSerializer.cpp:149-153 | the concatenated trivia text of two lists is the concatenation of their texts |
| CSTSerializer.TriviaTextAt | source/syntax/CSTSerializer.cpp:149-153 | each trivia's raw text appears in the concatenated text, in order, right after the texts of the trivia before it |
| CSTSerializer.TriviaObjectsLength | source/syntax/CSTSerializer.cpp:157-166 | full-mode trivia writes exactly six calls per trivia |
| CSTSerializer.TriviaObjectsAt | source/syntax/CSTSerializer.cpp:157-166 | the i-th group of six calls is the kind/text object of the i-th trivia, in order |
| CSTSerializer.KindTextMembers | source/syntax/CSTSerializer.cpp:139-142 | the kind and text calls write the keys "kind" and "text" into the open object |
| CSTSerializer.TriviaObjectWellFormed | source/syntax/CSTSerializer.cpp:159-164 | one trivia writes one object whose keys are exactly "kind" and "text" |
| CSTSerializer.TriviaObjectsWellFormed | source/syntax/CSTSerializer.cpp:157-166 | full-mode trivia writes one array element per trivia |
| CSTSerializer.TriviaWellFormed | source/syntax/CSTSerializer.cpp:145-168 | the "trivia" key is written, with one value, exactly when the mode is neither SimpleTokens nor NoTrivia and the token has trivia |
| CSTSerializer.TokenValueWellFormed | source/syntax/CSTSerializer.cpp:131-171 | a token writes one JSON value: in SimpleTokens mode a bare value with no keys, otherwise an object with exactly "kind", "text" and, when trivia is shown, "trivia" |
| CSTSerializer.TokenValuesWellFormed | source/syntax/CSTSerializer.cpp:88-90 | a token list writes one array element per token |
| CSTSerializer.NodeWellFormed | source/syntax/CSTSerializer.cpp:41-53 | every node writes one object whose keys are "kind" first, then the names of the fields it writes, in field order |
| CSTSerializer.MembersWellFormed | source/syntax/CSTSerializer.cpp:47-48 | a node's handler writes exactly the keys of the fields that emit, in order |
| CSTSerializer.MemberWellFormed | source/syntax/CSTSerializer.cpp:62-129 | a field writes its key with one value exactly when it emits: a token with non-empty value text, any node, a present optional node, or a non-empty list; otherwise it writes nothing |
| CSTSerializer.NodesWellFormed | source/syntax/CSTSerializer.cpp:101-103 | a syntax list writes one array element per item |
| CSTSerializer.ChildrenWellFormed | source/syntax/CSTSerializer.cpp:116-127 | a separated list writes one array element per slot holding a node or a token, and nothing for an empty slot |
| CSTSerializer.ChildWellFormed | source/syntax/CSTSerializer.cpp:117-126 | a slot writes one element for a node or a token and none when it holds neither |
| CSTSerializer.ArrayMemberWellFormed | source/syntax/CSTSerializer.cpp:86-91 | a key followed by an array of well-formed elements writes exactly that one key |
| CSTSerializer.TreeWellFormed | source/syntax/CSTSerializer.cpp:23-31 | a serialized tree is exactly one JSON document whose top-level keys are "kind" and "root", and the root node is one object written as the value of "root" |
| CSTSerializer.ConcatTriviaText | source/syntax/CSTSerializer.cpp:149-153 | the loop that builds `triviaText` yields the in-order concatenation of the raw trivia texts |
| CSTSerializer.CSTJsonVisitor.constructor | source/syntax/CSTSerializer.cpp:39 | keeps the writer and the mode |
| CSTSerializer.CSTJsonVisitor.Visit | source/syntax/CSTSerializer.cpp:41-53 | appends exactly the node's events: start object, "kind" and its value, the handler's fields, end object |
| CSTSerializer.CSTJsonVisitor.Handle | source/syntax/CSTSerializer.cpp:47-48 | appends the events of every field in order |
| CSTSerializer.CSTJsonVisitor.WriteMember | source/syntax/CSTSerializer.cpp:173-174 | dispatches each field to its writer and appends that field's events |
| CSTSerializer.CSTJsonVisitor.WriteToken | source/syntax/CSTSerializer.cpp:62-68 | appends nothing when the token's value text is empty, otherwise the key and the token value |
| CSTSerializer.CSTJsonVisitor.WriteNode | source/syntax/CSTSerializer.cpp:70-73 | appends the key and the node's events |
| CSTSerializer.CSTJsonVisitor.WriteOptionalNode | source/syntax/CSTSerializer.cpp:75-80 | appends nothing for an absent node, otherwise the key and the node's events |
| CSTSerializer.CSTJsonVisitor.WriteTokenList | source/syntax/CSTSerializer.cpp:82-92 | appends nothing for an empty list, otherwise the key and an array of the token values in order |
| CSTSerializer.CSTJsonVisitor.WriteSyntaxList | source/syntax/CSTSerializer.cpp:94-105 | appends nothing for an empty list, otherwise the key and an array of the items' events in order |
| CSTSerializer.CSTJsonVisitor.WriteSeparatedSyntaxList | source/syntax/CSTSerializer.cpp:107-129 | appends nothing for an empty list, otherwise the key and an array holding, in index order, each slot's node, or its token when there is no node |
| CSTSerializer.CSTJsonVisitor.WriteTokenValue | source/syntax/CSTSerializer.cpp:131-171 | appends the raw text as one value in SimpleTokens mode, otherwise an object with kind, text and the mode's trivia |
| CSTSerializer.CSTJsonVisitor.WriteTrivia | source/syntax/CSTSerializer.cpp:145-168 | appends nothing in NoTrivia mode or without trivia, otherwise "trivia" with the concatenated text in SimpleTrivia mode or with one kind/text object per trivia |
| CSTSerializer.CSTSerializer.constructor | source/syntax/CSTSerializer.cpp:20-21 | keeps the writer and the mode |
| CSTSerializer.CSTSerializer.Serialize | source/syntax/CSTSerializer.cpp:23-31 | appends start object, "kind", "SyntaxTree", "root", the root node's events and end object |
| CSTSerializer.CSTSerializer.SerializeNode | source/syntax/CSTSerializer.cpp:177-180 | appends exactly the node's events, through a fresh visitor with the same writer and mode |

## Left out

- Concurrency: the reader-writer lock and the atomic unnamed-buffer counter of `SourceManager` are left out, and every operation is sequential.
- File system and paths: reading files and headers, include-directory search, absolute and proximate paths (`readSource`, `readHeader`, `makeAbsolutePath`, `addSystemDirectory`, `addUserDirectory`) are I/O. The `disableProximatePaths` flag is kept only as state.
- Line and column numbers: `getLineNumber`, `getColumnNumber`, `getFileName`, `getRawLineNumber` and `computeLineOffsets` have bodies that are not part of this model. `SourceManager.SourceManager.AddLineDirective` takes the raw-line computation as a function parameter.
- `isBeforeInCompilationUnit`: its body is not part of this model.
- `SourceManager.GetSourceText` and `SourceManager.GetRawFileName`: these return the cached contents and name of a file buffer (empty for any other buffer) with no further contract, because their bodies are not shown.
- `SourceManager.SourceManager.CreateExpansionLoc`: the location it returns is modelled as offset 0 of the new buffer, because the body that picks it is not shown. `GetOriginalLoc` shifts the stored original location by the macro location's offset.
- `SourceManager.MacroNameOf`: a body expansion made with the boolean form has an empty name, and the walk stops there and returns empty. This follows the header's "returns an empty string view" (include/slang/text/SourceManager.h:70-72) rather than continuing up the chain.
- `SourceManager.FullyExpanded`: on an argument entry it steps to the original location, which is the argument at the expansion site (include/slang/text/SourceManager.h:223-229), rather than applying `getExpansionLoc` at every step.
- `SourceManager.SourceManager.AddDiagnosticDirective`: the insertion position is modelled as after every directive at the same or an earlier offset, because the body that orders the list is not shown.
- `SourceManager.SourceManager.AddDiagnosticDirective`: it first resolves the location to its fully expanded location, as `AddLineDirective` does. The header does not state this step, and the body that would is not shown.
- `SourceManager.SourceManager.CacheBuffer`: for a path that is already cached, the model keeps the cached contents and ignores the new text. It still appends a new file entry over the cached data. The body that handles this case is not shown, so this is a modelling choice.
- `SourceManager.SourceManager.AssignBuffer`: for a path that is already cached, it keeps the cached contents and ignores the given buffer, as `CacheBuffer` does.
- `SourceManager.SourceManager.AssignText`: for a path that is already cached, it keeps the cached contents and ignores the given text, as `CacheBuffer` does. The buffer's text equals the given text only for a path not cached before.
- `SourceManager.UnnamedBufferPath`: the name `"<unnamed_buffer" + decimal counter + ">"` is a chosen format, because the header only declares the counter. The property relied on is that distinct counter values give distinct paths (`UnnamedBufferPathsDistinct`).
- `SourceManager.SourceManager.AssignUnnamedText`: the counter is an unbounded natural number. The 32-bit wrap-around of `unnamedBufferCount` after 2^32 unnamed buffers is not modelled.
- `SourceManager.SourceManager.AssignBuffer`: moving the caller's vector versus copying the text is not distinguished; both take the contents as a value.
- Sentinel buffer id: the empty location is the explicit constructor `NoLocation` rather than buffer id 0. Queries on it are defined wherever the header allows them.
- DepTracker parser metadata: `getDeclaredSymbols` and `getReferencedSymbols` are inputs carried by each tree.
- DepTracker hash-container order: the iteration order of the hash containers (`localTreeToDeps`, the per-tree missing-name set, the `treeToDeps` keys in `getAllSorted`) is an unspecified choice. The model therefore claims no order for a tree's missing names, for the order in which trees are resolved, or for the lists under `missingNames`, only their contents with multiplicity.
- DepTracker shared pointers: trees are compared by id. For an id listed twice in the input, the references come from its first occurrence, while the declared names are recorded for every occurrence, the first declarer of each name winning. In the source all occurrences are one shared tree and carry the same names.
- JSON writer internals: `JsonWriter` is an event log. Escaping, indentation and the text of numbers are not modelled, and `toString` of a syntax or token kind is the kind's name given as a string.
- Generated handlers (`CSTJsonVisitorGen.h`): each node's generated `handle` is modelled as the node's list of fields, each written by the writer for its shape. `CSTSerializer.CSTJsonVisitor.WriteMember` is the dispatch.
- `CSTSerializer.CSTJsonVisitor.WriteTrivia` and `CSTSerializer.ConcatTriviaText` are the trivia part of `writeTokenValue` and its concatenation loop, split into their own methods. Together they write the same calls in the same order.
- Unreachable handlers: the `SyntaxListBase` and `InvalidSyntaxNode` handlers are unreachable and have no counterpart.
- Separated-list slots: a slot with neither a node nor a token is the `NoChild` case.
- Files not part of this model: source/symbols/ParameterSymbols.cpp, source/ast/symbols/ParameterBuilder.h and source/symbols/TypeSymbols.h. They hold symbol construction tied to the compilation, binding and constant evaluation, which sits outside the three components modelled here.
