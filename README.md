# strip_type_hints in Dafny

A model of `distutils_build_without_typehints/strip_type_hints.py`. This lib2to3-based refactoring tool removes type hints, `typing` imports and their uses from Python source. It works on a concrete syntax tree.

The model covers these parts of the module:

- **Syntax tree.** A value datatype `SyntaxTree.Node`:
  - a leaf has a token, a value and a prefix;
  - a branch has a symbol and an ordered child list;
  - a node is addressed by its `Path` of child indices from the root.
- **Mutable tree.** The fixers edit the class `SyntaxTree.Tree` through `Remove` and `Replace`. These model only the effect of lib2to3's `remove()`/`replace()` on the child lists.
- **Traversals over copied child lists** (`node_pre_order`, `node_post_order`): module `Traversal`.
- **Tree builders** (`with_seperator`, `DottedName`, `FromImport`): module `Builders`.
- **Edit helpers** (`replace_cast`, `remove_expr`, `remove_line`): module `Edits`. A spec function gives each helper's outcome and new tree; a method on `Tree` is proved against it.
- **The `TYPES` table:** module `TypingTable`.
- **`FixRemoveCast`:**
  - `UsagePatterns`: the usage patterns as descriptors (shape, module name, capture label, name), plus `make_pattern`;
  - `ImportPatterns`: the import statements `IMPORT_PATTERN` accepts, and how the names they import are read and grouped;
  - `CastRewrites`: `match` and `transform` as spec functions over the per-file state;
  - `RemoveCast`: the fixer as a class whose fields are that state.
- **The two fixed-shape fixers:** `RemoveTypeHints` and `RemoveGenericBases`.
- **`StripTypeHintsRefactoringTool.get_fixers`:** module `RefactoringTool`.

Python exceptions the code can raise are modelled as outcomes:
- an `IndexError` past the end of a child list;
- an `AttributeError` on a missing parent;
- a `KeyError` in `aliases`;
- the `AssertionError` of `replace` on a parentless node;
- the `FixerError` of `get_fixers`.

None of these is a precondition.

The model follows the code on these points:

- **`make_pattern` keys.** The function looks up the key `(name, modname, alias)` but records `(alias, modname, alias)`. An aliased import is therefore never deduplicated: registering it again appends its patterns again (`UsagePatterns.RegisterTwiceWithAliasAppendsAgain`).
- **The `*` branch of `match`** (lines 172-177) cannot be reached. The `imports=` slot of the pattern only accepts `import_as_names` or `import_as_name`, never a `*` token (`ImportPatterns.StarImportIsNotMatched`).
- **`from typing import X` with a single bare name** is not matched at all. lib2to3 leaves a lone NAME leaf in that slot (`ImportPatterns.SingleBareNameIsNotMatched`).
- **Prefixes.** lib2to3's `replace` and `remove` do not move prefixes. A replacement node keeps the prefix it was built with, not the prefix of the node it replaces.
- **Generic-bases pattern.** lib2to3 tries `any*` with as few nodes as possible first, so the pattern captures the leftmost subscripted base of a class.
- **Fixer order.** `FixRemoveCast` keeps `BaseFix`'s defaults (order `"post"`, run order 5). `FixRemoveTypeHints` has run order 4 and `FixRemoveGenericBases` run order 10. All three therefore run post-order, and generic bases run last (`RefactoringTool.ToolFixerOrder`). A "mid priority" for the generic-bases rule does not match the code. The model follows the code.

## Model

| member | source | states |
|---|---|---|
| Traversal.PreOrderAncestorsFirst | distutils_build_without_typehints/strip_type_hints.py:20-24 | pre-order yields every node after all of its ancestors |
| Traversal.PostOrderAncestorsLast | distutils_build_without_typehints/strip_type_hints.py:14-18 | post-order yields every node before all of its ancestors |
| Traversal.PreOrderVisitsEveryNode | distutils_build_without_typehints/strip_type_hints.py:20-24 | on a tree that is not edited during the walk, pre-order yields exactly the nodes of that tree |
| Traversal.PostOrderVisitsEveryNode | distutils_build_without_typehints/strip_type_hints.py:14-18 | on a tree that is not edited during the walk, post-order yields exactly the nodes of that tree |
| Traversal.WalkCopiedChildren | distutils_build_without_typehints/strip_type_hints.py:14-31 | the child loop over the list copied on entry walks every child present then, once and in order, whatever the driver's edits do to the live list, and the live list ends as those edits leave it |
| Traversal.WalkLiveSkipsSibling | distutils_build_without_typehints/strip_type_hints.py:27-31 | without the copy, the loop over the live list skips the second of three children when each visited child removes itself, which is why the copy is taken |
| Builders.Interleave | distutils_build_without_typehints/strip_type_hints.py:61-69 | no items give `[]`; n items give 2n-1 elements, the items in order at even positions and the separator at every odd position |
| Builders.WithSeparator | distutils_build_without_typehints/strip_type_hints.py:61-69 | the loop builds exactly the interleaving of the items with the separator |
| Builders.InterleaveSnoc | distutils_build_without_typehints/strip_type_hints.py:64-68 | one more item adds one separator and the item at the end |
| Builders.Split | distutils_build_without_typehints/strip_type_hints.py:73 | `name.split('.')` gives pieces without dots that join back to the name; there is one piece exactly when the name has no dot |
| Builders.SplitJoin | distutils_build_without_typehints/strip_type_hints.py:73 | splitting a join of dot-free pieces gives the pieces back |
| Builders.InterleavedNamesTexts | distutils_build_without_typehints/strip_type_hints.py:73-74 | the non-dot leaves of the interleaved names are the parts, and the text of all the leaves is the parts joined with dots |
| Builders.DottedNameShape | distutils_build_without_typehints/strip_type_hints.py:71-76 | a name without a dot gives a NAME leaf with the prefix. Otherwise it gives a `dotted_name` whose non-dot children are `name.split('.')` in order, with a `.` between each pair and the prefix on the first leaf |
| Builders.DottedNameRoundTrip | distutils_build_without_typehints/strip_type_hints.py:71-76 | the text of the built node is the name, and its prefix is the one given |
| SyntaxTree.SetPrefix | distutils_build_without_typehints/strip_type_hints.py:81 | setting the prefix changes a leaf's prefix only and never the node's text |
| ImportPatterns.ReadImportLeaf | distutils_build_without_typehints/strip_type_hints.py:83-88 | the node built for a pair reads back as a bare name when the alias is absent or equal to the name, otherwise as that name with that alias |
| Builders.FromImport | distutils_build_without_typehints/strip_type_hints.py:79-95 | the loop builds the `from P import ...` node of the package and the comma-separated name nodes |
| ImportPatterns.FromTypingImportRoundTrip | distutils_build_without_typehints/strip_type_hints.py:79-95 | a `from typing import ...` that `FromImport` builds is matched by the import pattern, and its names read back as the pairs given |
| ImportPatterns.ReadBackImportNames | distutils_build_without_typehints/strip_type_hints.py:83-93 | reading the comma-separated name nodes back gives one entry per pair, with no error |
| Edits.TrailerRunEnd | distutils_build_without_typehints/strip_type_hints.py:35-36 | the attribute loop as written: where it stops, every child before it is a `.name` trailer. It gives None exactly when the loop reads past the end or into an empty trailer |
| Edits.AttributeRunEnd | distutils_build_without_typehints/strip_type_hints.py:35-36 | the loop bounded by the child count: it fails only on an empty trailer reached through `.name` trailers, otherwise it stops at the first non-attribute child or at the end |
| Edits.TrailerRunAgrees | distutils_build_without_typehints/strip_type_hints.py:35-36 | wherever the loop as written stops, the bounded loop stops at the same index |
| Edits.SkipDotTrailers | distutils_build_without_typehints/strip_type_hints.py:34-36 | the `while` loop from index 1 computes the bounded attribute run |
| Edits.BareCastRaises | distutils_build_without_typehints/strip_type_hints.py:33-37 | on `typing.cast` with nothing after it, `replace_cast` as written raises IndexError |
| Edits.BareCastUntouched | distutils_build_without_typehints/strip_type_hints.py:33-39 | with the bounded loop the same use is not a call and is left alone |
| Edits.PlanCastAgrees | distutils_build_without_typehints/strip_type_hints.py:33-41 | wherever the loop as written does not crash, the corrected `replace_cast` decides the same thing |
| Edits.CastUnwrapsSecondArgument | distutils_build_without_typehints/strip_type_hints.py:37-43 | `cast(T, e)` is replaced by `e`, and nothing else changes |
| Edits.CastNeedsCallTrailer | distutils_build_without_typehints/strip_type_hints.py:37-39 | without a three-child `( ... )` trailer after the attribute run, the tree is unchanged |
| Edits.ReplaceCast | distutils_build_without_typehints/strip_type_hints.py:33-43 | the method's outcome and new tree are those of `replace_cast` with the attribute loop bounded by the end of the child list (the corrected loop of the Findings row for line 35); the other crashes are kept |
| Edits.RemovePreviousThenNode | distutils_build_without_typehints/strip_type_hints.py:47-50 | removing the previous sibling and then the node drops exactly those two from the parent's children |
| Edits.RemoveExprInArglist | distutils_build_without_typehints/strip_type_hints.py:46-50 | in an `arglist` the node leaves, together with a COMMA directly before it. The other arguments keep their order |
| Edits.RemoveExprInExprStmt | distutils_build_without_typehints/strip_type_hints.py:51-52 | in an `expr_stmt` the grandparent is removed |
| Edits.RemoveExpr | distutils_build_without_typehints/strip_type_hints.py:45-54 | the method's outcome and new tree are those of the `remove_expr` spec for every parent kind, including a missing parent |
| Edits.EnclosingStatement | distutils_build_without_typehints/strip_type_hints.py:56-58 | the result is the innermost `simple_stmt` on the way to the root, or None when there is none |
| Edits.FindEnclosingStatement | distutils_build_without_typehints/strip_type_hints.py:57-58 | the walk up the parent chain finds that innermost statement |
| Edits.RemoveLineRemovesInnermostStatement | distutils_build_without_typehints/strip_type_hints.py:56-59 | when a statement encloses the node, `remove_line` completes by removing the innermost one |
| Edits.RemoveLine | distutils_build_without_typehints/strip_type_hints.py:56-59 | the method's outcome and new tree are those of the `remove_line` spec |
| TypingTable.LookupIn | distutils_build_without_typehints/strip_type_hints.py:182 | `TYPES.get(name)` is None exactly when no entry has the name; otherwise it is the replacement of an entry with that name |
| TypingTable.LookupAt | distutils_build_without_typehints/strip_type_hints.py:182 | the lookup returns the replacement of the first entry with the name |
| TypingTable.RSplitDot | distutils_build_without_typehints/strip_type_hints.py:176 | `rsplit('.', 1)` gives a module and a dot-free suffix that rejoin, with a dot, to the replacement string |
| TypingTable.RSplitDotUnique | distutils_build_without_typehints/strip_type_hints.py:176 | no other split into a module and a dot-free suffix exists |
| UsagePatterns.FirstMatchFrom | distutils_build_without_typehints/strip_type_hints.py:223-225 | the result is the first usage pattern that matches the node, or None when none matches |
| UsagePatterns.FindUsage | distutils_build_without_typehints/strip_type_hints.py:223-225 | the loop over `usage_patterns` returns that first match |
| UsagePatterns.FirstMatchStable | distutils_build_without_typehints/strip_type_hints.py:223-225 | patterns registered later never change which pattern matches first |
| UsagePatterns.NewPatterns | distutils_build_without_typehints/strip_type_hints.py:234-244 | `overload` gets the two decorator patterns (inside `decorators`, then a lone `decorator`) and every other name the one `power` pattern, each for the given module, capture label and name |
| UsagePatterns.RegisteredOverloadIsMatched | distutils_build_without_typehints/strip_type_hints.py:236-240 | after `overload` is registered, a definition decorated with `@overload`, alone or among other decorators, is matched |
| UsagePatterns.OverloadPatternsSkipPower | distutils_build_without_typehints/strip_type_hints.py:236-244 | the patterns for `overload` never match a `power` node, so a call of `overload` is not a use |
| UsagePatterns.RegisterTwiceWithoutAlias | distutils_build_without_typehints/strip_type_hints.py:227-230 | a second `make_pattern` of the same name and module without an alias changes nothing |
| UsagePatterns.RegisterRecordsAlias | distutils_build_without_typehints/strip_type_hints.py:231-255 | a new aliased registration records `aliases[alias] = name` and appends patterns that look for the alias under the `alias` capture. The patterns before it are kept |
| UsagePatterns.RegisterTwiceWithAliasAppendsAgain | distutils_build_without_typehints/strip_type_hints.py:229-257 | the key recorded is `(alias, modname, alias)`, so the same aliased registration appends its patterns a second time |
| UsagePatterns.RegisterKeepsAliasesCovered | distutils_build_without_typehints/strip_type_hints.py:227-257 | every pattern with the `alias` capture looks for a recorded alias |
| UsagePatterns.FreshConsistent | distutils_build_without_typehints/strip_type_hints.py:157-160 | the state `start_tree` leaves satisfies the fixer's invariant |
| UsagePatterns.RegisterKeepsConsistent | distutils_build_without_typehints/strip_type_hints.py:227-257 | `make_pattern` preserves the invariant: aliases are covered, and every recorded key has its patterns |
| UsagePatterns.RegisteredNameIsMatched | distutils_build_without_typehints/strip_type_hints.py:227-257 | after a name is registered without module or alias, a use headed by that name is matched |
| ImportPatterns.ImportsIn | distutils_build_without_typehints/strip_type_hints.py:105-107 | a capture is a name list or one `as` import from the list, and everything else in the list is a parenthesis |
| ImportPatterns.ImportsInParentheses | distutils_build_without_typehints/strip_type_hints.py:105-107 | a name list or `as` import with or without either parenthesis around it is captured |
| ImportPatterns.MatchParenthesisedFromTyping | distutils_build_without_typehints/strip_type_hints.py:105-107 | `from typing import (<names>)` captures the name list inside the parentheses |
| ImportPatterns.StarImportIsNotMatched | distutils_build_without_typehints/strip_type_hints.py:99-108 | `from typing import *` is not matched |
| ImportPatterns.SingleBareNameIsNotMatched | distutils_build_without_typehints/strip_type_hints.py:99-108 | `from typing import X` with one bare name is not matched |
| ImportPatterns.CapturedImportsAreNames | distutils_build_without_typehints/strip_type_hints.py:167-172 | a captured `imports` is never a `*` token |
| ImportPatterns.MatchFromTyping | distutils_build_without_typehints/strip_type_hints.py:105 | `from typing import <names>` without parentheses captures the name list |
| ImportPatterns.ReadEntriesPerChild | distutils_build_without_typehints/strip_type_hints.py:179-195 | with no crashing child, the entries are those of the NAME and `a as b` children, in order, and commas are skipped; otherwise reading stops at the first child that crashes, with its error and the entries before it |
| ImportPatterns.ReadEntriesCrashSticks | distutils_build_without_typehints/strip_type_hints.py:179-195 | nothing is read after the first crash |
| ImportPatterns.RegisterEntriesKeepsConsistent | distutils_build_without_typehints/strip_type_hints.py:179-199 | the `make_pattern` calls for the imported names preserve the invariant |
| ImportPatterns.RegisterEntriesAppends | distutils_build_without_typehints/strip_type_hints.py:179-199 | they only append patterns and keys, and they leave `imports` alone |
| ImportPatterns.Contribution | distutils_build_without_typehints/strip_type_hints.py:182-193 | a name contributes exactly when its table entry is a dotted rename. Its pair sits under the module, where module + "." + suffix is the target, and its second half is the name or alias |
| ImportPatterns.GroupsOfSnoc | distutils_build_without_typehints/strip_type_hints.py:183-185 | one more imported name adds its contribution through `setdefault(module, set()).add(pair)` |
| ImportPatterns.GroupsOfWellFormed | distutils_build_without_typehints/strip_type_hints.py:170-203 | `replace_imports` has each module once, in insertion order |
| ImportPatterns.GroupsOfMembers | distutils_build_without_typehints/strip_type_hints.py:178-203 | a pair is grouped under a module exactly when some imported name contributes it there |
| ImportPatterns.NoDottedNoGroups | distutils_build_without_typehints/strip_type_hints.py:178-203 | with no dotted replacement among the names, `replace_imports` is empty |
| ImportPatterns.ModulesOfMembers | distutils_build_without_typehints/strip_type_hints.py:212-217 | a module is in the set exactly when some table entry renames into it |
| ImportPatterns.RegisterModuleKeys | distutils_build_without_typehints/strip_type_hints.py:213-214 | after `import typing [as M]` every table name has its key under M |
| ImportPatterns.RegisterModuleKnown | distutils_build_without_typehints/strip_type_hints.py:227-230 | registering names whose keys are all recorded changes nothing |
| ImportPatterns.RegisterModuleTwice | distutils_build_without_typehints/strip_type_hints.py:209-214 | a second `import typing` under the same name registers nothing new |
| ImportPatterns.RegisterModuleKeepsConsistent | distutils_build_without_typehints/strip_type_hints.py:209-214 | registering the whole table preserves the invariant |
| ImportPatterns.RegisterModulePrefix | distutils_build_without_typehints/strip_type_hints.py:213-214 | registering more of the table only appends patterns |
| CastRewrites.MatchKinds | distutils_build_without_typehints/strip_type_hints.py:162-225 | import results come only from import statements, and usage results only from `power` or `decorated` nodes |
| CastRewrites.MatchKeepsConsistent | distutils_build_without_typehints/strip_type_hints.py:162-225 | `match` preserves the invariant and never changes `imports` |
| CastRewrites.MatchGroupsWellFormed | distutils_build_without_typehints/strip_type_hints.py:170-205 | the dictionary `match` stores has each module once, in insertion order |
| CastRewrites.MatchedAliasIsRecorded | distutils_build_without_typehints/strip_type_hints.py:282-286 | a use captured as `alias` names a recorded alias |
| CastRewrites.MatchedUseNoKeyError | distutils_build_without_typehints/strip_type_hints.py:282-286 | from a consistent state, a matched use never raises KeyError in `transform` |
| CastRewrites.RewriteKeyErrorOnlyFromAlias | distutils_build_without_typehints/strip_type_hints.py:283-286 | a rewrite raises KeyError exactly when an `alias` capture is missing from `aliases` |
| CastRewrites.MatchIsTransformable | distutils_build_without_typehints/strip_type_hints.py:259-260 | every result `match` accepts is one `transform` handles: import results on import nodes, uses elsewhere |
| CastRewrites.WithoutImport | distutils_build_without_typehints/strip_type_hints.py:274-278 | the import leaves its parent, with a `;` directly before it. Every other child keeps its order |
| CastRewrites.DeleteImportAloneOnLine | distutils_build_without_typehints/strip_type_hints.py:274-280 | an import alone on its line leaves together with the line; the other lines keep their order |
| CastRewrites.SecondModuleImportEmitsNothing | distutils_build_without_typehints/strip_type_hints.py:264-266 | after an `import typing` was rewritten, a second one in the file emits no import and adds none to `imports` |
| CastRewrites.ModuleImportEmitsMissing | distutils_build_without_typehints/strip_type_hints.py:264-268 | exactly the modules not yet imported are emitted, one per line, and all of the set is added to `imports` |
| CastRewrites.RenameThroughAttribute | distutils_build_without_typehints/strip_type_hints.py:297-298 | a dotted replacement reached through attribute access replaces the whole use by a node whose text is the target |
| CastRewrites.RenameDropsSubscript | distutils_build_without_typehints/strip_type_hints.py:299-302 | without attribute access, a dotted replacement removes only a three-child `[...]` trailer |
| CastRewrites.RenameKeepsPlainUse | distutils_build_without_typehints/strip_type_hints.py:299-302 | without attribute access or a subscript, a dotted replacement changes nothing |
| CastRewrites.RenameUndotted | distutils_build_without_typehints/strip_type_hints.py:303-304 | an undotted replacement replaces the whole use by a plain name |
| CastRewrites.UnknownNameUntouched | distutils_build_without_typehints/strip_type_hints.py:288 | a name outside the table is left alone |
| CastRewrites.BareAttributeRenameRaises | distutils_build_without_typehints/strip_type_hints.py:294-296 | as written, a dotted rename of `M.X` with nothing after it raises IndexError |
| CastRewrites.RewriteOfBareAttribute | distutils_build_without_typehints/strip_type_hints.py:288-298 | corrected, that use of a dotted-renamed name becomes the dotted target |
| CastRewrites.RenameOfBareAttribute | distutils_build_without_typehints/strip_type_hints.py:293-298 | the corrected rename replaces `M.X` by the dotted target |
| CastRewrites.RenameAgrees | distutils_build_without_typehints/strip_type_hints.py:293-302 | wherever the rename as written does not crash, the corrected rename does the same |
| CastRewrites.RenameNoIndexError | distutils_build_without_typehints/strip_type_hints.py:293-302 | the corrected rename never raises IndexError on trailers the parser builds |
| CastRewrites.AbstractSetEntry | distutils_build_without_typehints/strip_type_hints.py:111 | `AbstractSet` is renamed to the dotted `collections.abc.Set` |
| CastRewrites.FirstNameUseMatched | distutils_build_without_typehints/strip_type_hints.py:209-225 | after `import typing`, `typing.X` for the table's first name X is matched under `name` |
| CastRewrites.TypingAttributeUseMatched | distutils_build_without_typehints/strip_type_hints.py:209-225 | after `import typing`, `typing.AbstractSet` is matched under `name` |
| CastRewrites.TypingAttributeUseRaises | distutils_build_without_typehints/strip_type_hints.py:209-296 | after `import typing`, the use `typing.AbstractSet` is matched and renamed, and the code as written raises IndexError |
| CastRewrites.TypingAttributeUseRenamed | distutils_build_without_typehints/strip_type_hints.py:209-298 | corrected, the same use becomes `collections.abc.Set` |
| RemoveCast.SetToSeq | distutils_build_without_typehints/strip_type_hints.py:264-265 | iterating a set yields each element once, in an order left open |
| RemoveCast.FixRemoveCast.StartTree | distutils_build_without_typehints/strip_type_hints.py:154-160 | every file starts with empty per-file state, which satisfies the invariant |
| RemoveCast.FixRemoveCast.MakePattern | distutils_build_without_typehints/strip_type_hints.py:227-257 | the fields become the `make_pattern` state update |
| RemoveCast.FixRemoveCast.MatchNames | distutils_build_without_typehints/strip_type_hints.py:178-205 | the loop over the imported names registers them and computes the grouped replacement imports, or the first crash |
| RemoveCast.FixRemoveCast.AddEntry | distutils_build_without_typehints/strip_type_hints.py:179-193 | one imported name extends the registrations and the groups |
| RemoveCast.FixRemoveCast.AddContribution | distutils_build_without_typehints/strip_type_hints.py:183-185 | `setdefault(module, set()).add(pair)` for a dotted replacement; nothing otherwise |
| RemoveCast.FixRemoveCast.MatchModule | distutils_build_without_typehints/strip_type_hints.py:209-220 | every table name is registered under the module name, and the set of modules is collected |
| RemoveCast.FixRemoveCast.Match | distutils_build_without_typehints/strip_type_hints.py:162-225 | the new state and the result are those of the `match` spec |
| RemoveCast.FixRemoveCast.MatchValid | distutils_build_without_typehints/strip_type_hints.py:162-225 | `match` keeps the invariant and does not change `imports` |
| RemoveCast.FixRemoveCast.DeleteImport | distutils_build_without_typehints/strip_type_hints.py:273-280 | the tree after the deletion is the spec's: a `;` before the import goes too, and so does a line left holding only its newline |
| RemoveCast.FixRemoveCast.ReplaceModuleImport | distutils_build_without_typehints/strip_type_hints.py:264-272 | `import m` for each missing module replaces the statement, one per line, and `imports` grows by the set |
| RemoveCast.FixRemoveCast.BuildFromImports | distutils_build_without_typehints/strip_type_hints.py:270 | one `from m import ...` per group, in dictionary order, each listing the group's pairs |
| RemoveCast.FixRemoveCast.ReplaceFromImport | distutils_build_without_typehints/strip_type_hints.py:269-272 | the grouped imports, one per line, replace the statement |
| RemoveCast.FixRemoveCast.Rename | distutils_build_without_typehints/strip_type_hints.py:293-304 | the rename of a use is that of the corrected spec |
| RemoveCast.FixRemoveCast.RewriteUsage | distutils_build_without_typehints/strip_type_hints.py:282-304 | a use is rewritten by its table entry, after the alias is resolved, with the attribute loops of lines 35 and 295 bounded (the corrected members of the Findings rows) |
| RemoveCast.FixRemoveCast.TransformFromImports | distutils_build_without_typehints/strip_type_hints.py:259-280 | a `from typing import` is replaced by its groups, or deleted when there are none |
| RemoveCast.FixRemoveCast.TransformModuleImport | distutils_build_without_typehints/strip_type_hints.py:259-280 | an `import typing` is replaced by its missing modules, or deleted. The invariant is kept |
| RemoveCast.FixRemoveCast.Transform | distutils_build_without_typehints/strip_type_hints.py:259-306 | `transform` does what the spec allows for every result `match` returns, with the attribute loops of lines 35 and 295 bounded, and keeps the invariant |
| RemoveGenericBases.FirstSubscripted | distutils_build_without_typehints/strip_type_hints.py:311 | the result is the leftmost subscripted base, or None when there is none |
| RemoveGenericBases.MatchGenericIff | distutils_build_without_typehints/strip_type_hints.py:310-314 | a class matches exactly when it has a subscripted base, either alone or in an argument list |
| RemoveGenericBases.Transform | distutils_build_without_typehints/strip_type_hints.py:318-319 | the method removes the captured `generic` trailer |
| RemoveGenericBases.GenericRemoved | distutils_build_without_typehints/strip_type_hints.py:318-319 | the captured base keeps only its name, and every node outside that base is unchanged |
| RemoveGenericBases.OtherBasesIntact | distutils_build_without_typehints/strip_type_hints.py:310-319 | the bases before the captured one are not subscripted, and every other base is unchanged |
| RemoveTypeHints.MatchedShapes | distutils_build_without_typehints/strip_type_hints.py:323-327 | the fixer matches exactly `tname` annotations and `def`s with a return hint, and captures the name or the hint |
| RemoveTypeHints.Transform | distutils_build_without_typehints/strip_type_hints.py:331-338 | the method's outcome and new tree are the spec's |
| RemoveTypeHints.AnnotationReplacedByName | distutils_build_without_typehints/strip_type_hints.py:332-333 | the `tname` is replaced by its name. The siblings keep their order |
| RemoveTypeHints.ReturnHintRemoved | distutils_build_without_typehints/strip_type_hints.py:335-338 | exactly the `->` and the hint leave the `def`, and the `def` no longer has a return hint. Nothing outside the `def` changes |
| RefactoringTool.InsertSorted | distutils_build_without_typehints/strip_type_hints.py:358-360 | inserting into a sorted list keeps it sorted by run order |
| RefactoringTool.InsertPermutes | distutils_build_without_typehints/strip_type_hints.py:358-360 | insertion adds exactly the one fixer |
| RefactoringTool.InsertStable | distutils_build_without_typehints/strip_type_hints.py:358-360 | an inserted fixer goes after every fixer with the same run order |
| RefactoringTool.StableSortSorted | distutils_build_without_typehints/strip_type_hints.py:358-360 | the sorted list is ordered by run order and is a permutation of the input |
| RefactoringTool.StableSortStable | distutils_build_without_typehints/strip_type_hints.py:358-360 | fixers with equal run order keep their input order |
| RefactoringTool.SortByRunOrder | distutils_build_without_typehints/strip_type_hints.py:358-360 | the in-place sort computes the stable sort |
| RefactoringTool.WithOrderOnly | distutils_build_without_typehints/strip_type_hints.py:351-354 | each list holds only fixers of its own order, taken from the input |
| RefactoringTool.FirstIllegal | distutils_build_without_typehints/strip_type_hints.py:347-356 | the result is the first fixer whose order is neither "pre" nor "post", or None when there is none |
| RefactoringTool.GetFixersSpec | distutils_build_without_typehints/strip_type_hints.py:344-361 | FixerError is raised exactly when some fixer's order is illegal, and it names the first such order |
| RefactoringTool.GetFixers | distutils_build_without_typehints/strip_type_hints.py:344-361 | the loop and the sorts compute the spec's result |
| RefactoringTool.SplitCovers | distutils_build_without_typehints/strip_type_hints.py:351-356 | with legal orders, every fixer is in exactly one of the two lists |
| RefactoringTool.GetFixersPartition | distutils_build_without_typehints/strip_type_hints.py:344-361 | the lists partition the fixers by order. Each is sorted by run order and keeps declaration order among equal run orders |
| RefactoringTool.ToolFixersSelected | distutils_build_without_typehints/strip_type_hints.py:340-354 | all three of the tool's fixers are post-order |
| RefactoringTool.ToolFixersSorted | distutils_build_without_typehints/strip_type_hints.py:342-360 | sorted by run order, the three are type hints, then cast, then generic bases |
| RefactoringTool.ToolFixerOrder | distutils_build_without_typehints/strip_type_hints.py:340-361 | `get_fixers` returns no pre-order fixers and the post-order fixers type hints, cast, generic bases |

## Left out

- **lib2to3 machinery.** The `PatternCompiler`, its matcher objects, the parser, and the refactoring driver's loop that calls `match`/`transform` on each visited node are not part of this model. The concrete pattern shapes are hand-written predicates. The usage patterns are descriptors.
- **Literal matching.** A quoted pattern literal matches a NAME token when it starts with a letter. Only ASCII letters are recognised; Python's Unicode `isalpha` is not modelled.
- **Prefixes and `changed()`.** lib2to3 prefix bookkeeping and `node.changed()` (line 338) are left out. Only the effect of `remove`/`replace` on the child lists is modelled. `SyntaxTree.Tree.Remove` / `Replace` model that effect.
- **`start_tree` super call.** `BaseFix.start_tree` (line 155) and the fixer constructor's `options` and `fixer_log` (line 348) belong to lib2to3, which is not part of this model.
- **`log_debug`.** The call at line 350 is logging output.
- **`BaseFix` defaults.** Their values are taken as order "post" and run order 5. `BaseFix` itself is not part of this model.
- **Unused imports.** `ast`, `itertools`, `is_probably_builtin` and `Call` are imported but never used.
- **Other files.** build_without_typehints.py (distutils glue and file I/O) and setup.py (packaging metadata) are not part of this model.
- **`match` lines 172-177** (the `*` branch) are not written out. That branch cannot be reached; `ImportPatterns.StarImportIsNotMatched` shows a star import is never matched.
- Builders.WithSeparator: the separator factory creates a fresh node per gap. On values every separator is the same leaf, so node identity is not modelled.
- Traversal.PreOrderVisitsEveryNode: holds for a tree the driver does not edit during the walk. The copy that keeps the walk going under edits is modelled one child list at a time, by `Traversal.WalkCopiedChildren`. Node identity is not modelled, so an edit deep in the tree that a child walked later sees through the shallow copy is not captured.
- Traversal.PostOrderVisitsEveryNode: holds for a tree the driver does not edit during the walk, for the same reason as the pre-order line above.
- Edits.ReplaceCast: runs the bounded attribute loop. The crash of the loop as written (line 35) is modelled by `Edits.PlanCastAsWritten` and shown by `Edits.BareCastRaises`.
- RemoveCast.FixRemoveCast.RewriteUsage: runs the bounded attribute loops. The crashes as written (lines 35 and 295) are modelled by `Edits.PlanCastAsWritten` and `CastRewrites.RenameEditAsWritten`.
- RemoveCast.FixRemoveCast.Transform: inherits the bounded loops of `RewriteUsage`.
- RemoveCast.SetToSeq: Python set iteration order is left open. Any enumeration is allowed, so the order of the emitted imports within a set is unspecified.
- RemoveCast.FixRemoveCast.Match: the exact text of the pattern strings at lines 234-244 is not modelled. The descriptors stand for the compiled patterns.

## Findings

| source | as written | input that shows it | evidently intended | confidence | as-written member | corrected member |
|---|---|---|---|---|---|---|
| distutils_build_without_typehints/strip_type_hints.py:294-296 | the loop over attribute trailers indexes the children of the use without checking that index 2 exists | `import typing` followed by `def f(x: typing.AbstractSet): pass`: the use `typing.AbstractSet` has no child after its `.AbstractSet` trailer, so `node.children[2]` raises IndexError | stop at the end of the child list and replace the use by `collections.abc.Set` | not executed; high | CastRewrites.TypingAttributeUseRaises | CastRewrites.TypingAttributeUseRenamed |
| distutils_build_without_typehints/strip_type_hints.py:35-36 | `replace_cast` runs the same unbounded loop | `import typing` followed by `f = typing.cast`: the loop reads past the last child and raises IndexError | stop at the end and, with no call trailer, leave the use alone | not executed; high | Edits.BareCastRaises | Edits.BareCastUntouched |
