# Luau script analysis and binding-generator helpers, in Dafny

This project models two parts of a Godot extension that adds Luau scripting.

**The script analysis pass.** This is `luascript_analyze` and `luascript_ast_method` in `src/luau_analysis.cpp`. The pass receives a script's parsed syntax tree and its source text, and recovers the class the script defines without running it:

- **Comments.** A table of line start offsets is built. Each comment token is classified as a block comment, a single-line comment alone on its line (`SINGLE_LINE_EXCL`), or a trailing single-line comment. Its text is sliced out of the source.
- **Entry point.** `find_return_local` finds the local returned by the root block. `LocalDefinitionFinder` finds the last expression assigned to that local, matching locals by identity.
- **Implementation table.** A walk along the fluent call chain of that expression looks for `:RegisterImpl(<local>)`. `TypesMethodsFinder` then collects every `function <impl>.<name>` and `function <impl>:<name>` into a map keyed by name.
- **Signatures.** `get_type`, `get_prop` and `get_type_reference` map Luau type annotations (`Variant`, the Luau primitives, engine builtin types, classes, `TypedArray<T>`, `T | nil`) onto Godot property descriptors. `luascript_ast_method` assembles a whole method signature from them, or fails.

**The binding generator's helpers.** These come from `bindgen/utils.py`:

- the class skip list;
- the indenting `append`;
- the case conversions `snake_to_pascal` and `snake_to_camel`;
- enum and enum-value naming;
- the operator selection `get_operators`;
- the filters for singletons and class methods;
- setter/getter resolution.

Modules:

| file | module | models |
|---|---|---|
| `wrappers.dfy` | `Wrappers` | an `Option` type with failure propagation |
| `luau_ast.dfy` | `LuauAst` | the Luau syntax tree, comment tokens and the parse result; locals carry an `id` that stands for the address of the local |
| `godot_types.dfy` | `GodotTypes` | variant types, property descriptors (`GDProperty`), usage flags, hints, method flags, and the `Host`: the class registry and type-name tables the engine supplies |
| `luau_comments.dfy` | `LuauComments` | line offsets, comment classification, comment extraction |
| `luau_analysis.dfy` | `LuauAnalysis` | the returned local, the visitors, the chain walk, the whole analysis, plus lemmas about an idiomatic script |
| `luau_signature.dfy` | `LuauSignature` | type mapping and signature assembly |
| `bindgen_strings.dfy` | `BindgenStrings` | the Python string operations the helpers use (ASCII `upper`/`lower`, `split`, `join`, `strip`, `startswith`) |
| `bindgen_names.dfy` | `BindgenNames` | `should_skip_class`, `append`, `snake_to_pascal`, `snake_to_camel`, `get_enum_name`, `get_enum_value_name` |
| `bindgen_filters.dfy` | `BindgenFilters` | `get_operators`, `get_singletons`, `get_class_methods`, `get_property_setget` |

Where the C++ code updates state step by step, the model does the same:

- building the offset table, the scan of a comment's line and the chain walk are `while` loops;
- the visitors are classes whose `Visit` updates their `result` or `methods` field;
- the analysis result and the method descriptor are classes that the analysis updates in place.

Each such method is proved equal to a specification function, and the properties are proved about that function. The Python helpers are functions, except three: `get_enum_value_name` and `get_operators`, which keep their loops, and `append`, which mutates the list it is given.

The model follows the code, not the design description, where the two differ:

- **Argument types.** The argument path calls `get_type_reference` without the conditional flag, so a `T?` parameter is accepted and described as `T` (`ConditionalArgumentIsItsInner`).
- **Return of a non-local.** `find_return_local` skips a `return` whose first expression is not a local and keeps scanning.
- **Returning the chain directly.** A script that ends in `return Def:RegisterImpl(Impl)` is therefore not recognised (`ReturnOfRegisterCallFails`). Only `local Def = Class.new():RegisterImpl(Impl) ... return Def` is (`IdiomaticReturn`, `IdiomaticDefinition`, `IdiomaticMethods`).
- **Builtin names.** `get_type` looks up the builtin type-name table before the class registry. So a name in both, such as `Object`, gets the builtin variant type and no class name (`BuiltinNamesShadowClasses`).
- **Stale results.** `result.impl` is only written when a registration is found, so a value the caller left there survives a failed walk. `result.methods` is only written on success.
- **Method name.** `ret.name` is written as soon as the method is found, before any failure.

## Model

| member | source | states |
|---|---|---|
| `LuauComments.LineOffsets` | src/luau_analysis.cpp:94-106 | the table has one entry for offset 0 and one per `'\n'`, each pointing one past its newline; every newline is covered and the entries strictly increase |
| `LuauComments.NewlineEnds` | src/luau_analysis.cpp:99-105 | every collected offset follows a `'\n'` in the scanned prefix, in increasing order |
| `LuauComments.NewlineEndsCount` | src/luau_analysis.cpp:99-105 | the scan over a prefix adds exactly as many entries as the prefix has newlines |
| `LuauComments.NewlineEndsComplete` | src/luau_analysis.cpp:99-105 | every newline of the scanned prefix adds the offset one past it |
| `LuauComments.BuildLineOffsets` | src/luau_analysis.cpp:94-106 | the character loop over the NUL-terminated source builds exactly the line offset table |
| `LuauComments.ClassifyFromLineStart` | src/luau_analysis.cpp:122-134 | the forward scan from the line start yields the classification of `ScanLine` |
| `LuauComments.ScanExclusiveSound` | src/luau_analysis.cpp:124-131 | an exclusive classification means `--` is reached with only tab, space, `\v` or `\f` before it |
| `LuauComments.ScanExclusiveComplete` | src/luau_analysis.cpp:124-131 | only blanks before `--` on the line makes the comment exclusive |
| `LuauComments.ScanExclusiveIff` | src/luau_analysis.cpp:121-131 | exclusive if and only if the first `--` on the line is preceded by blanks alone |
| `LuauComments.ScanDecides` | src/luau_analysis.cpp:124-134 | a line that holds `--` after the scan start always gets a classification |
| `LuauComments.LineCommentKind` | src/luau_analysis.cpp:120-135 | a single-line comment's kind is the one the line scan decides |
| `LuauComments.CommentOf` | src/luau_analysis.cpp:113-141 | the comment keeps its location; a block comment is `Block`; a line comment is exclusive iff the line scan says so; the text is the source slice from the begin to the end position, end exclusive |
| `LuauComments.Unbroken` | src/luau_analysis.cpp:108-111 | exactly the tokens not marked broken are kept |
| `LuauComments.UnbrokenCounts` | src/luau_analysis.cpp:108-111 | each token not marked broken is kept exactly as often as it occurs, and broken ones never |
| `LuauComments.UnbrokenAppend` | src/luau_analysis.cpp:108-111 | skipping broken tokens keeps the order of the rest: the filtered stream of `a + b` is the filtered `a` followed by the filtered `b` |
| `LuauComments.ExtractComments` | src/luau_analysis.cpp:108-144 | one comment per unbroken token, in token order, each built from its token |
| `LuauComments.CommentFromToken` | src/luau_analysis.cpp:113-141 | the per-token loop body yields the specified comment |
| `LuauAnalysis.FindReturnLocal` | src/luau_analysis.cpp:24-41 | a returned local is one that some `return` (possibly inside nested blocks) names first |
| `LuauAnalysis.FirstDecisiveDecides` | src/luau_analysis.cpp:24-41 | the first statement that is a block or a `return` of nothing or of a local decides the result; later statements are never looked at |
| `LuauAnalysis.NoDecisiveNoLocal` | src/luau_analysis.cpp:24-41 | with no block and no such `return` the result is null; non-local returns are skipped |
| `LuauAnalysis.VisitStats` | src/luau_analysis.cpp:151-152 | the visitor is called only on node kinds the finder overrides |
| `LuauAnalysis.BindingsUpTo` | src/luau_analysis.cpp:48-55 | exactly the values paired, below both list lengths, with a variable identical to the local |
| `LuauAnalysis.AllBindingsIff` | src/luau_analysis.cpp:47-58 | an expression is a candidate definition iff a visited `local` statement binds the local to it at a valid index pair |
| `LuauAnalysis.DefinitionByIdentity` | src/luau_analysis.cpp:52 | the definition depends only on the local's identity, not on its name or annotation |
| `LuauAnalysis.AllBindingsSameLocal` | src/luau_analysis.cpp:52 | the candidate list depends only on the local's identity |
| `LuauAnalysis.BindingsSameLocal` | src/luau_analysis.cpp:52 | per statement, the bindings depend only on the local's identity |
| `LuauAnalysis.LocalDefinitionFinder.constructor` | src/luau_analysis.cpp:43-61 | the finder starts with its local and no result |
| `LuauAnalysis.LocalDefinitionFinder.Visit` | src/luau_analysis.cpp:47-58 | the result becomes the last binding of the local in the statement (unchanged if none), and descent stops |
| `LuauAnalysis.LastOrAppend` | src/luau_analysis.cpp:53 | "last assignment wins" composes over consecutive statements |
| `LuauAnalysis.FindDefinition` | src/luau_analysis.cpp:151-153 | visiting the whole tree leaves the last binding of the local in traversal order |
| `LuauAnalysis.ChainLinks` | src/luau_analysis.cpp:157-174 | every link the walk visits is a call |
| `LuauAnalysis.ChainImplFirstRegistering` | src/luau_analysis.cpp:157-174 | an implementation table is found iff some link is `:RegisterImpl` with a local first argument, and it is the one from the first such link |
| `LuauAnalysis.WalkChain` | src/luau_analysis.cpp:157-174 | the `while` loop over the chain finds exactly that implementation table |
| `LuauAnalysis.TypesMethodsFinder.constructor` | src/luau_analysis.cpp:81-82 | the finder starts with its table and an empty map |
| `LuauAnalysis.TypesMethodsFinder.Visit` | src/luau_analysis.cpp:69-79 | a `function <impl>.<name>` or `<impl>:<name>` is inserted under `<name>`; anything else leaves the map unchanged; descent stops |
| `LuauAnalysis.HarvestLastWins` | src/luau_analysis.cpp:69-76 | a name is a key iff some visited function is declared on the implementation table under it, and its entry is the last such declaration |
| `LuauAnalysis.HarvestMethods` | src/luau_analysis.cpp:180-183 | visiting the tree builds exactly the harvested map |
| `LuauAnalysis.AnalysisResult.constructor` | src/luau_analysis.cpp:92 | a fresh result has no comments, no definition, no table and no methods |
| `LuauAnalysis.CollectComments` | src/luau_analysis.cpp:93-144 | the comment step produces exactly the extracted comments |
| `LuauAnalysis.LuauScriptAnalyze` | src/luau_analysis.cpp:92-186 | comments are appended; the definition is the returned local; the table is the chain's or the old one; success iff a definition expression exists and a table is set; on success the methods are the harvest, otherwise unchanged |
| `LuauAnalysis.VisitStatsSingle` | src/luau_analysis.cpp:152 | visiting a one-statement block is visiting that statement |
| `LuauAnalysis.VisitStatsAppend` | src/luau_analysis.cpp:152 | the traversal of a block is the traversal of its parts in order |
| `LuauAnalysis.IdiomaticExpressionsAreLeaves` | src/luau_analysis.cpp:85-91 | the expressions of the idiomatic script hold no visited statements |
| `LuauAnalysis.IdiomaticStatVisits` | src/luau_analysis.cpp:85-91 | each statement of the idiomatic script is visited by exactly the finder that matches its kind |
| `LuauAnalysis.IdiomaticVisits` | src/luau_analysis.cpp:85-91 | the idiomatic script visits its two `local` statements for definitions and its method for the harvest |
| `LuauAnalysis.IdiomaticReturn` | src/luau_analysis.cpp:24-41 | in the idiomatic script the returned local is the definition table |
| `LuauAnalysis.IdiomaticDefinition` | src/luau_analysis.cpp:151-174 | the definition is `Class.new():RegisterImpl(Impl)` and the chain walk finds `Impl` |
| `LuauAnalysis.IdiomaticMethods` | src/luau_analysis.cpp:180-183 | the harvest of the idiomatic script maps `Greet` to its declaration |
| `LuauAnalysis.ReturnOfRegisterCallFails` | src/luau_analysis.cpp:29-36 | `return Def:RegisterImpl(Impl)` yields no returned local and so no definition |
| `LuauSignature.GetType` | src/luau_analysis.cpp:190-238 | fails iff the name is not `Variant`, not a known type name and not a class; the descriptor keeps its name and gains no array hint |
| `LuauSignature.VariantIsHostIndependent` | src/luau_analysis.cpp:209-215 | `Variant` is resolved without consulting the registry |
| `LuauSignature.LuauNamesArePrimitive` | src/luau_analysis.cpp:195-200 | `nil`, `boolean`, `integer`, `number`, `string` give their fixed primitive types and nothing else changes |
| `LuauSignature.BuiltinNamesShadowClasses` | src/luau_analysis.cpp:217-221 | a builtin type name gives its variant type even when a class of that name exists |
| `LuauSignature.ClassesAreResourceOrObject` | src/luau_analysis.cpp:222-232 | a class gives OBJECT with either the resource hint and hint string or the class name, never both |
| `LuauSignature.UnionScan` | src/luau_analysis.cpp:291-307 | a found member is a non-nil reference |
| `LuauSignature.GetTypeReference` | src/luau_analysis.cpp:278-311 | a found type is a reference |
| `LuauSignature.GetTypeReferenceIsNullableReference` | src/luau_analysis.cpp:278-311 | a plain reference is returned as it is, not conditional; a two-member union of `nil` and one other reference gives that reference, conditional; every other shape gives nothing |
| `LuauSignature.ScanLast` | src/luau_analysis.cpp:291-307 | the last member of a union completes the scan as the loop body decides |
| `LuauSignature.GetProp` | src/luau_analysis.cpp:240-276 | without a parameter list it is `get_type`; with one, success means `TypedArray` with the ARRAY type and the ARRAY_TYPE hint |
| `LuauSignature.TypedArrayFollowsElement` | src/luau_analysis.cpp:247-270 | `TypedArray<T>` resolves iff `T` does; the hint string is the variant type name of `T` when `T` is not an object, otherwise the resource hint for a resource type hint and the class name for any other object; for a registered class `T` that is neither a variant type nor `Variant`, the hint is its resource hint when it derives from `Resource` and its own name otherwise |
| `LuauSignature.EmptyTypedArrayFails` | src/luau_analysis.cpp:247-249 | the corrected `TypedArray<>` fails instead of reading a missing parameter |
| `LuauSignature.EmptyTypedArrayPassesGuard` | src/luau_analysis.cpp:247-249 | the guard as written lets `TypedArray<>` reach the read of its first parameter |
| `LuauSignature.ReturnDescriptor` | src/luau_analysis.cpp:324-342 | a return list of other than exactly one type fails |
| `LuauSignature.ConditionalReturnIsVariant` | src/luau_analysis.cpp:336-339 | any `T?` return, in either order, is the Variant descriptor, whether or not `T` resolves |
| `LuauSignature.EmptyReturnListPassesGuard` | src/luau_analysis.cpp:325-330 | the guard as written lets an empty return list reach the read of its first type |
| `LuauSignature.ArgumentDescriptor` | src/luau_analysis.cpp:362-370 | a described argument is annotated and keeps its name |
| `LuauSignature.ConditionalArgumentIsItsInner` | src/luau_analysis.cpp:368-369 | an argument annotated `T?` is described exactly as one annotated `T` |
| `LuauSignature.ArgumentDescriptors` | src/luau_analysis.cpp:356-376 | all arguments are described or the whole list fails; on success one descriptor per argument, in order |
| `LuauSignature.SignatureParameters` | src/luau_analysis.cpp:350-360 | the described parameters number the corrected argument count |
| `LuauSignature.ArgumentCount` | src/luau_analysis.cpp:350-353 | the count is the parameter count with self, one less without self, and never negative |
| `LuauSignature.RequestedArgumentCount` | src/luau_analysis.cpp:353 | the as-written count is reduced modulo the size of `size_t` |
| `LuauSignature.RequestedCountWrapsForEmptyDotMethod` | src/luau_analysis.cpp:353 | for a `.` method with no parameters the as-written count is 2^64 - 1 while the corrected count is 0 |
| `LuauSignature.RequestedCountAgreesOtherwise` | src/luau_analysis.cpp:353 | in every other case the as-written and corrected counts agree |
| `LuauSignature.MethodSignature` | src/luau_analysis.cpp:313-377 | an unknown name fails; a signature records whether the function is vararg |
| `LuauSignature.MethodSignatureAllOrNothing` | src/luau_analysis.cpp:313-377 | a signature exists iff the return annotation, if any, resolves and every argument resolves; it then has one argument per parameter after the self skip |
| `LuauSignature.MethodInfo.constructor` | src/luau_analysis.cpp:313 | a fresh descriptor has no name, the default return value and flags, and no arguments |
| `LuauSignature.MethodInfo.FillArguments` | src/luau_analysis.cpp:350-376 | the indexed loop succeeds iff every argument resolves, and then the argument list holds their descriptors; the other fields are untouched |
| `LuauSignature.Resize` | src/luau_analysis.cpp:353 | the list gets the requested length, keeps its common prefix and fills new slots with default descriptors |
| `LuauSignature.LuauAstMethod` | src/luau_analysis.cpp:313-377 | success iff the signature exists; an unknown name leaves the descriptor untouched; a known name is written even on failure; on success the return value, the vararg flag and the arguments come from the signature |
| `BindgenStrings.Split` | bindgen/utils.py:41 | `split` yields at least one piece, none containing the separator |
| `BindgenStrings.JoinSplit` | bindgen/utils.py:41-43 | joining the pieces of a split gives back the string |
| `BindgenStrings.SplitJoin` | bindgen/utils.py:41-43 | splitting a join of separator-free pieces gives back the pieces |
| `BindgenStrings.SplitCount` | bindgen/utils.py:41 | the number of pieces is one more than the number of separators |
| `BindgenStrings.StripIsSlice` | bindgen/utils.py:236-237 | `strip` removes a run of the character from each end, leaving a slice of the input |
| `BindgenNames.ShouldSkipClassExactly` | bindgen/utils.py:32-35 | true exactly for `Nil`, `bool`, `int`, `float` and `String` |
| `BindgenNames.IndentLines` | bindgen/utils.py:39-42 | one output line per input line, each indented unless empty |
| `BindgenNames.IndentBlockLines` | bindgen/utils.py:38-43 | the appended block has the same line count as the input, with every non-empty line prefixed by the indent repeated by the level and empty lines left empty |
| `BindgenNames.SourceLines.constructor` | bindgen/utils.py:38 | the source list starts empty |
| `BindgenNames.SourceLines.Append` | bindgen/utils.py:38-43 | exactly one element, the indented block, is added at the end of the list |
| `BindgenNames.Capitalize` | bindgen/utils.py:47 | the first character is upper-cased and the rest is kept |
| `BindgenNames.ReplacePairPointwise` | bindgen/utils.py:53 | the replacement keeps the length and changes only the `d` of each `2d`/`3d` |
| `BindgenNames.SegmentsHaveNoUnderscore` | bindgen/utils.py:47-48 | the joined segments contain no `_` |
| `BindgenNames.SnakeToPascalUnderscores` | bindgen/utils.py:46-53 | the output has `_` only at position 0, and there iff the input starts with `_` |
| `BindgenNames.SnakeToPascalDimensions` | bindgen/utils.py:53 | no `2d` or `3d` survives in the output |
| `BindgenNames.CapitalizeSegmentStarts` | bindgen/utils.py:47-48 | a character-by-character reference for the joined segments; it is never longer than its input |
| `BindgenNames.CapitalizeSegmentStartsLength` | bindgen/utils.py:47-48 | the character walk keeps exactly the non-`_` characters, so it is as long as the input without underscores |
| `BindgenNames.CapitalizeSegmentStartsSplit` | bindgen/utils.py:47-48 | the character walk is the first piece of the split on `_` (capitalised when it starts a segment, dropped when empty) followed by the later segments capitalised and joined |
| `BindgenNames.JoinedSegmentsCharacterwise` | bindgen/utils.py:47-48 | joining the capitalised non-empty segments equals the character walk from a segment start |
| `BindgenNames.CapitalizeSegmentStartsAt` | bindgen/utils.py:47-48 | the `i`-th non-`_` input character sits at the count of non-`_` characters before it, upper-cased exactly when it is first or follows a `_` |
| `BindgenNames.RemoveChar` | bindgen/utils.py:65 | the character is gone and the result is shorter by exactly its number of occurrences |
| `BindgenNames.RemoveCharKeepsOthers` | bindgen/utils.py:65 | every other character is kept exactly as often as it occurred |
| `BindgenNames.RemoveCharIsConcatOfSplit` | bindgen/utils.py:47-48 | dropping every `_` equals joining the pieces between them |
| `BindgenNames.SnakeToPascalLetters` | bindgen/utils.py:46-48 | before the `_` prefix and the `2D`/`3D` rewrite, the output has one character per non-`_` input character, in order; an input character is upper-cased exactly when it is the first character or follows a `_`, and every other character is kept unchanged |
| `BindgenNames.FirstCased` | bindgen/utils.py:59-60 | the index of the first cased character, or none iff there is none |
| `BindgenNames.LowerFirstCased` | bindgen/utils.py:59-61 | exactly the first cased character is lower-cased and the rest kept; fails iff nothing is cased |
| `BindgenNames.LowerFirstCasedKeepsLowercase` | bindgen/utils.py:61 | the result agrees with its input once both are lower-cased |
| `BindgenNames.SnakeToCamel` | bindgen/utils.py:56-61 | fails iff the Pascal form has no cased character; otherwise it equals the Pascal form up to case |
| `BindgenNames.GetEnumName` | bindgen/utils.py:64-65 | the result holds no `.` and a dot-free name is unchanged |
| `BindgenNames.NoDotUnchanged` | bindgen/utils.py:65 | removing `.` from a dot-free string changes nothing |
| `BindgenNames.GetEnumNameJoinsPieces` | bindgen/utils.py:65 | removing every `.` joins the pieces between them; nothing else is removed |
| `BindgenNames.Disagreements` | bindgen/utils.py:81-86 | the number of values that disagree at a position is at most the number of values |
| `BindgenNames.AcceptedLength` | bindgen/utils.py:75-93 | the scan accepts positions with at most one disagreement and stops at the end of the first name or at the first position with more |
| `BindgenNames.TrimToUnderscore` | bindgen/utils.py:96-97 | the trimmed prefix is a prefix, empty or ending in `_`, and only non-`_` characters were dropped |
| `BindgenNames.EnumPrefix` | bindgen/utils.py:70-97 | the prefix exists iff there are values; it starts the first value's name, is empty or ends in `_`, and at each position at most one value disagrees |
| `BindgenNames.EnumValueName` | bindgen/utils.py:68-107 | fails iff there are no values or the stripped name is empty; otherwise `N` is prepended iff the stripped name starts with a digit |
| `BindgenNames.ComputeEnumPrefix` | bindgen/utils.py:70-97 | the two `while` loops compute the specified prefix |
| `BindgenNames.GetEnumValueName` | bindgen/utils.py:68-107 | the method computes the specified value name |
| `BindgenNames.EnumValueNameShape` | bindgen/utils.py:99-107 | the prefix is removed only when the name starts with it; `N` is prepended iff a digit leads |
| `BindgenFilters.SubsequenceOfSelf` | bindgen/utils.py:175-196 | a list is an order-preserving selection of itself |
| `BindgenFilters.SubsequenceExtend` | bindgen/utils.py:175-196 | skipping an input element keeps the output a selection |
| `BindgenFilters.SubsequenceAppendBoth` | bindgen/utils.py:175-196 | keeping an input element keeps the output a selection |
| `BindgenFilters.Filter` | bindgen/utils.py:202 | a comprehension keeps exactly the elements that pass and is no longer than its input |
| `BindgenFilters.FilterCounts` | bindgen/utils.py:202 | a comprehension keeps each passing element exactly as often as it occurs, and no other element |
| `BindgenFilters.FilterIsSubsequence` | bindgen/utils.py:202 | a comprehension preserves order |
| `BindgenFilters.FilterAppend` | bindgen/utils.py:170 | filtering distributes over concatenation |
| `BindgenFilters.OpPriority` | bindgen/utils.py:158-168 | priority is 0, 1 or 2 |
| `BindgenFilters.SortByPriorityOrdered` | bindgen/utils.py:170 | the sorted operators are ordered by priority |
| `BindgenFilters.SortByPriorityStable` | bindgen/utils.py:170 | within each priority the sort keeps input order, as a stable sort does |
| `BindgenFilters.SortPermutation` | bindgen/utils.py:170 | the sort is a permutation of its input |
| `BindgenFilters.FilterOfPriorityClass` | bindgen/utils.py:170 | filtering one priority class by another is that class or nothing |
| `BindgenFilters.KeptOperators` | bindgen/utils.py:173-198 | the kept operators are an order-preserving selection whose names are all in the operator map, with `==` kept only against the class itself |
| `BindgenFilters.NoIntAfterFloat` | bindgen/utils.py:189-194 | no `int` right-type operator is kept after a `float` one |
| `BindgenFilters.IntOrFloatNotBoth` | bindgen/utils.py:157-194 | when floats come before ints, the output never holds both an `int` and a `float` right-type operator |
| `BindgenFilters.WithoutFloatsKeepIsUsable` | bindgen/utils.py:175-196 | without float operators, the loop is a plain filter on usability |
| `BindgenFilters.GetOperators` | bindgen/utils.py:154-198 | the append loop computes the kept operators of the sorted list |
| `BindgenFilters.KeptOperatorsComplete` | bindgen/utils.py:175-196 | every operator whose name is in the operator map and that passes the `==` rule is output, unless it has an `int` right type and an earlier operator with a `float` right type passes both rules |
| `BindgenFilters.GetOperatorsResult` | bindgen/utils.py:154-198 | the output is a selection of the stably sorted input, every name is in the operator map, priorities are ordered, and `int` and `float` right types never both appear; every sorted operator that passes the name and `==` rules and is not blocked by an earlier `float` operator is output |
| `BindgenFilters.KeptKeepsOrder` | bindgen/utils.py:175-196 | filtering keeps priority order |
| `BindgenFilters.GetSingletons` | bindgen/utils.py:201-202 | exactly the singletons whose type is the class, in order, each as often as in the input |
| `BindgenFilters.GetClassMethods` | bindgen/utils.py:205-218 | exactly the methods that are not virtual and not `get`/`set` on `Object`, in order, each as often as in the input; a class without a method list fails |
| `BindgenFilters.ActualSetget` | bindgen/utils.py:225-239 | an empty name gives `("", False)`; not found iff neither the name nor its `_`-stripped form is a method, and then the name is empty; a name that is a method gives its own Pascal form, even when the stripped form is one too; otherwise the Pascal form of the stripped name |
| `BindgenFilters.GetPropertySetget` | bindgen/utils.py:221-244 | a missing setter or getter gives an empty name and "found"; "not found" only for a name that is not a method; without a method list every non-empty name is not found |

## Left out

- `src/luagd.h` (the Lua VM stack and registry glue) is not part of this model.
- The Godot class database (`Utils::class_exists`, `Utils::is_parent_class`), `Utils::resource_type_hint` and `Variant::get_type_name` are fields of `Host`. They are functions of the class or type name with no further properties, since they are engine calls.
- The type-name table filled from `Variant::get_type_name` over the variant enum is a parameter of `Host`. The lazy `static` initialisation with `did_init` is a process-wide cache, so the table is a constant per host.
- The Luau parser and lexer are not modelled. The syntax tree and the comment tokens are inputs, and tokens are assumed to lie inside the source (`ValidToken`).
- The generic `AstVisitor` traversal is a pre-order walk, `VisitStats`. It stops at the node kinds the visitor overrides, because their `visit` returns false.
- `String::utf8` is not modelled. Comment contents are the character slice of the source.
- `GDProperty` and `GDMethod` defaults come from `luau_lib.h`, which is not part of this model. They are taken as NIL type, no hint, empty strings, default usage and normal flags.
- Usage is a set of flags. The NIL_IS_VARIANT usage of the Variant descriptor is a flag in that set, not a bit pattern.
- The address of a local is modelled by an `id` field. `SameLocal` compares ids, so two distinct locals never share one.
- Python dictionaries become records. A missing optional key is an `Option`. The `IndexError` raised by `enum_values[0]`, by `value_name[0]` on an empty string, or by `snake_to_camel` on a name with no cased letter becomes a `None` result.
- Case mapping and `isdigit` are ASCII only. Python's Unicode rules for non-ASCII letters and digits are not modelled.
- `constants.indent` is a parameter of `append`, since the constants module is not part of this model.
- `load_cpp_binding_generator`, `write_file` and the table `utils_to_bind` are left out, because they are file and module I/O or plain data. `variant_op_map` enters only as its key set.
- Python's `sorted` is modelled as the concatenation of the three priority classes, each in input order. This is the result a stable sort on a key with three values produces, and the sort algorithm itself is not modelled.
- `LuauSignature.LuauAstMethod`: on failure for a known name, the contract states only that the name was written. The return value, flags and arguments may be partly updated, as in the source, and their exact values are not stated.
- `KeptOperators`: its own contract states only what is output (names, the `==` rule, order). Which operators must be output is stated by `KeptOperatorsComplete` and `GetOperatorsResult`.
- Statements inside a `typeof(...)` type annotation are not visited, because type annotations are not part of the modelled syntax tree. The source's visitor would enter a function expression written there.
- `LuauAnalysis.FindReturnLocal`: its own contract only states that the result is some returned local. The exact choice is stated by `FirstDecisiveDecides` and `NoDecisiveNoLocal`.

## Findings

| source | as written | input that shows it | evidently intended | confidence | as-written member | corrected member |
|---|---|---|---|---|---|---|
| src/luau_analysis.cpp:326-330 | only `types.size > 1` is refused before `*types.begin()` is read | a method annotated with an empty return list, `function Impl.F(self): () end` | fail (or treat as no return value) unless there is exactly one type | medium, not executed | `LuauSignature.EmptyReturnListPassesGuard` | `LuauSignature.ReturnDescriptor` |
| src/luau_analysis.cpp:353 | `func->args.size - 1` is computed in unsigned size arithmetic | `function Impl.F() end`, declared with `.` and no parameters | zero arguments | high, not executed | `LuauSignature.RequestedCountWrapsForEmptyDotMethod` | `LuauSignature.ArgumentCount` |
| src/luau_analysis.cpp:247-249 | `type->parameters.begin()->type` is read without checking that a parameter exists | the annotation `TypedArray<>`, if the parser accepts an empty parameter list | fail | low, not executed; depends on the parser | `LuauSignature.EmptyTypedArrayPassesGuard` | `LuauSignature.EmptyTypedArrayFails` |
