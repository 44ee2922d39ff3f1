# gql-hook-codegen in Dafny

A model of the core of `gql-hook-codegen`. The tool reads a GraphQL schema and
a TypeScript file that holds a partly written GraphQL request. It then does
three things:

1. It completes the request. Every argument the schema declares for a
   selected field is bound to a variable. Colliding variable names are
   disambiguated by the selection path. The operation's variable definitions
   are rebuilt, and an unnamed operation is given a name.
2. It extracts one structural type per selection level. Structurally equal
   types are deduplicated, and a clashing name is renamed after its path or
   with a counter.
3. It synthesises TypeScript declarations and a typed Apollo hook. The hook's
   parameters, its skip guard and the react hook it calls depend on the
   operation kind and on the variables the request requires.

The model follows the source file by file:

| module | file | models |
|---|---|---|
| `Wrappers` | wrappers.dfy | `Option`, `Result` (a thrown `Error` is a `Failure`) |
| `Names` | names.dfy | the `name-util` casing helpers, `join`, `split` |
| `Collections` | collections.dfy | `Object.fromEntries`/`Object.values`, `findIndex`, a throwing `map` |
| `GraphQL` | graphql.dfy | the GraphQL syntax tree the tool reads and writes |
| `GraphQLUtil` | graphql_util.dfy | `src/graphql-util.ts`, `src/util.ts` |
| `FixRequest` | fix_request.dfy | `src/core/fix-gql-request.ts` |
| `ExtractTypes` | extract_types.dfy | `src/core/extract-gql-types.ts` |
| `TSTree` | ts_tree.dfy | the traversal helpers of `src/core/typescript-util.ts` (and of `src/typescript-util.ts`) |
| `TSUtil` | ts_util.dfy | the declaration builders of `src/core/typescript-util.ts` |
| `GenerateHook` | generate_hook.dfy | `src/core/generate-gql-hook.ts` |
| `LegacyFix` | legacy_fix.dfy | `src/fix-gql-request.ts` |
| `LegacyExtract` | legacy_extract.dfy | `src/extract-gql-types.ts` |
| `LegacyHook` | legacy_hook.dfy | `src/generate-gql-hook.ts` |

**State.** Where the source mutates state, the model does too.

- The variable list of one request walk is a class, `FixRequest.VariableRegistry`.
- So is the name registry of deduplication (`ExtractTypes.TypeRegistry`).
- So is the import context of hook generation (`GenerateHook.HookContext`, `LegacyHook.HookContext`).
- Loops that reassign a local (`let output`, `let args`, `let name`, `while (context.types[name] ...)`) are methods with loop invariants.

Each method is proved equal to a pure function of its inputs and its old state. The properties are proved about those functions.

**Main properties.**

- Completion:
  - Every variable a completed operation refers to, at any depth, is declared.
  - Each variable is declared once.
  - A caller's own argument is kept.
  - A colliding name takes the path-prefixed camel-case name.
  - Definitions are completed independently of each other.
- Extraction:
  - Deduplication outputs the shapes the walk met, in pre-order.
  - Each output shape refers to the others by name.
  - The registry stays valid and only grows.
  - The final list holds one shape per content key.
- Hook generation:
  - A query is skipped exactly when a required variable is missing.
  - Only non-lazy queries with required variables get a skip guard.
  - The import block is sorted by module and always imports `gql`.
  - Imports gather under one package.

## Model

| member | source | states |
|---|---|---|
| GraphQLUtil.Required | src/util.ts:1-6 | `required` fails exactly on JavaScript's falsy values (`undefined`, `null`, `false`, `0`, `""`), with "Did not find a required value: " and the name; otherwise it returns the value |
| GraphQLUtil.RequiredNode | src/util.ts:1-6 | `required` on an `Array.find` result succeeds exactly when a node was found, and returns that node |
| GraphQLUtil.IsScalarType | src/graphql-util.ts:7-13 | true exactly for the five built-in scalars String, Boolean, Int, Float and ID |
| GraphQLUtil.PrototypeNameReadsAsScalar | src/graphql-util.ts:21-23 | `constructor` is read as a scalar by the lookup as written, but is not a built-in scalar |
| GraphQLUtil.ScalarLookupsAgree | src/graphql-util.ts:21-23 | both lookups accept every built-in scalar; they differ only on inherited member names |
| GraphQLUtil.FindObjectType | src/graphql-util.ts:30-35 | succeeds exactly when some definition is an object type with that name; returns the first such definition; otherwise fails with the "Count not found \"type X\" in your schema" message |
| GraphQLUtil.FindField | src/graphql-util.ts:37-42 | succeeds exactly when the object type declares a field with that name; returns the first one; otherwise fails with "No such field: name" |
| GraphQLUtil.FindSchemaType | src/core/extract-gql-types.ts:121 | returns the first definition of any kind with that name; returns none exactly when no definition has that name |
| GraphQLUtil.FindNullableField | src/core/extract-gql-types.ts:52 | returns the first declared field (of an object or input object type) with that name; returns none exactly when there is none |
| GraphQLUtil.DeclaredFields | src/core/extract-gql-types.ts:130 | an object type's fields; an input object's fields as argument-less fields; nothing for any other kind |
| GraphQLUtil.FindDeepType | src/graphql-util.ts:44-53 | the type reference is exactly its list/non-null wrappers applied around the returned name |
| GraphQLUtil.DeepTypeOfWrapped | src/graphql-util.ts:44-53 | unwrapping recovers the name and the exact wrapper sequence, whatever the wrappers are |
| GraphQLUtil.InputValueDefToVariableDef | src/graphql-util.ts:55-68 | the variable definition keeps the argument's name, type, default value and directives |
| GraphQLUtil.InputValueDefToVariable | src/graphql-util.ts:70-87 | the argument keeps its name; it is bound to the `to` of the first map entry whose `from` is the name, or to its own name when no entry matches |
| Collections.FromEntriesSpec | src/core/fix-gql-request.ts:123-125 | `Object.fromEntries` keeps one entry per key: every key of the input, each holding the last value given for it, in first-occurrence order |
| Collections.LastByKeySpec | src/core/fix-gql-request.ts:123-125 | `Object.values(Object.fromEntries(xs.map(x => [key(x), x])))`: the keys are distinct and cover the input, each element is the last with its key, and the order is first occurrence |
| FixRequest.VariableBindings | src/core/fix-gql-request.ts:20-57 | one mapping per argument definition; the registry grows by exactly one variable per argument and keeps its old prefix; each mapping binds the argument's name |
| FixRequest.BindingsSeeEarlierSiblings | src/core/fix-gql-request.ts:20-57 | each binding is the one `addVariable` makes given every variable pushed before it, earlier siblings included |
| FixRequest.ComposeArgumentList | src/core/fix-gql-request.ts:37-49 | one argument per declared argument, in declaration order; the caller's argument of that name if any, otherwise the argument bound through the variable map |
| FixRequest.NamingRule | src/core/fix-gql-request.ts:25-34 | for distinct argument names: a caller-supplied variable is kept; otherwise the bare name is used when no earlier variable holds it, and the camel-cased path-prefixed name when one does |
| FixRequest.ArgumentsRegistered | src/core/fix-gql-request.ts:20-49 | every argument of a completed field refers to a variable that is now in the registry |
| FixRequest.InvalidFieldMessageShowsLeadingDot | src/core/fix-gql-request.ts:68 | as written, a top-level field `x` is reported as `.x`; the corrected message reports `x` |
| FixRequest.InvalidFieldMessageShowsCommas | src/core/fix-gql-request.ts:68 | as written, a field under `user.followers` is reported as `user,followers.x` |
| FixRequest.InvalidFieldMessageNamesPath | src/core/fix-gql-request.ts:68 | splitting the corrected message's quoted part at dots gives back the path and the field name |
| FixRequest.CompletedSelection | src/core/fix-gql-request.ts:59-97 | a missing field fails with the invalid-field message; a non-field is returned unchanged; a completed field keeps its name; the registry only grows |
| FixRequest.CompletedField | src/core/fix-gql-request.ts:70-94 | the arguments are composed from bindings under the field's path (the path is extended only for non-scalar types); the field keeps a selection set exactly when it had one and its type is an object type |
| FixRequest.CompletedSelections | src/core/fix-gql-request.ts:99-108 | the selections are completed in order, one output per input, and the registry only grows |
| FixRequest.CompletedSelectionsFailure | src/core/fix-gql-request.ts:99-108 | a failure among the first k selections is the failure of the whole list |
| FixRequest.SelectionVariablesRegistered | src/core/fix-gql-request.ts:59-97 | every variable the completed selection refers to, at any depth, is registered when its walk ends |
| FixRequest.SelectionsVariablesRegistered | src/core/fix-gql-request.ts:99-108 | the same for a whole selection list |
| FixRequest.SelectionNames | src/core/fix-gql-request.ts:111 | succeeds exactly when no top-level selection is an inline fragment; returns one name per selection |
| FixRequest.OperationNameShape | src/core/fix-gql-request.ts:110-120 | a query is named `fetch` + ClassName(names joined by "-and-"), a mutation camelCase(joined), a subscription `subscribeTo` + ClassName(joined) |
| FixRequest.ToVariableDefinitions | src/core/fix-gql-request.ts:122-127 | no variable name is declared twice |
| FixRequest.VariableDefinitionsCover | src/core/fix-gql-request.ts:122-127 | every registered variable name is declared |
| FixRequest.VariableDefinitionsLastWins | src/core/fix-gql-request.ts:122-127 | each declaration is built from the last variable registered under its name |
| FixRequest.VariableDefinitionsOrdered | src/core/fix-gql-request.ts:122-127 | the declarations follow the order in which their names were first registered |
| FixRequest.CompletedDefinition | src/core/fix-gql-request.ts:129-148 | a non-operation is kept; a completed operation keeps its kind, keeps its name or is given `toOperationName`'s, holds the selections completed on a fresh registry and declares exactly `toVariableDefinitions` of that registry |
| FixRequest.DeclaresRegistered | src/core/fix-gql-request.ts:122-127 | every name in the registry has a declaration |
| FixRequest.CompletedOperationDeclaresItsVariables | src/core/fix-gql-request.ts:129-148 | a completed operation declares every variable its fields refer to, each exactly once |
| FixRequest.DefinitionsCompletedIndependently | src/core/fix-gql-request.ts:150-152 | the document succeeds exactly when every definition does, and its i-th output is definition i completed on its own |
| FixRequest.DocumentFailsAt | src/core/fix-gql-request.ts:150-152 | the first failing definition's error is the document's error |
| FixRequest.DocumentCompleted | src/core/fix-gql-request.ts:150-152 | when every definition completes, the document is their completions in order |
| FixRequest.VariableRegistry.constructor | src/core/fix-gql-request.ts:132 | a walk starts with no variables |
| FixRequest.VariableRegistry.AddVariable | src/core/fix-gql-request.ts:20-35 | returns `addVariable`'s mapping and pushes the variable under its new name; nothing else changes |
| FixRequest.VariableRegistry.DeduplicateVariables | src/core/fix-gql-request.ts:51-57 | the mappings and the new registry are `VariableBindings` of the old registry |
| FixRequest.VariableRegistry.ParseSelection | src/core/fix-gql-request.ts:59-97 | result and new registry are `CompletedSelection` of the old registry |
| FixRequest.VariableRegistry.ParseSelectionSet | src/core/fix-gql-request.ts:99-108 | result and new registry are `CompletedSelections` of the old registry |
| FixRequest.ParseOperationDef | src/core/fix-gql-request.ts:129-148 | equals `CompletedDefinition`, with a fresh registry per operation |
| FixRequest.FixGQLRequest | src/core/fix-gql-request.ts:150-153 | equals `CompletedDocument` of the parsed definitions |
| ExtractTypes.NextContext | src/core/extract-gql-types.ts:43-45 | the path grows by one step; the schema and the input flag are kept |
| ExtractTypes.FindField | src/core/extract-gql-types.ts:47-61 | the nullable lookup, or the "Invalid field: ... no such field exists in \"type/input X\"" error exactly when it finds nothing |
| ExtractTypes.DeclaredSources | src/core/extract-gql-types.ts:130 | one declared source per field of an object or input object, and none of them is a selection; nothing for other kinds |
| ExtractTypes.ExtractGQLFieldType | src/core/extract-gql-types.ts:63-81 | the field keeps its name; `schemaType` is the innermost named type; isNonNull/isArray hold exactly when such a wrapper occurs; the type is a plain name exactly for scalars, and a nested shape carries the context's path |
| ExtractTypes.ExtractGQLField | src/core/extract-gql-types.ts:83-98 | anything but a field selection or an input value fails with "Invalid field!"; the result is named after the source |
| ExtractTypes.ExtractSelectedFields | src/core/extract-gql-types.ts:128-129 | one field per selection, in order, each a field selection named like it |
| ExtractTypes.ExtractDeclaredFields | src/core/extract-gql-types.ts:130-132 | one field per declared field, in order, named like it |
| ExtractTypes.ExtractEnumType | src/core/extract-gql-types.ts:100-114 | an ENUM shape at the context's path with one field per enum value, named, typed and schema-typed by that value |
| ExtractTypes.ExtractGQLType | src/core/extract-gql-types.ts:116-139 | an unknown type fails with "Invalid type"; an enum gives `extractEnumType`; anything else gives an INTERFACE named `<Name>Type` with the selected fields (or, without a selection set, every declared field), at the context's path |
| ExtractTypes.ExtractInputType | src/core/extract-gql-types.ts:141-152 | `RequestType`, an INTERFACE at the context's path, with one field per variable definition, in order and named like it |
| ExtractTypes.GenerateGQLTypeId | src/core/extract-gql-types.ts:37-41 | the content key holds the type's name and exactly the set of its field names |
| ExtractTypes.TypeIdIgnoresFieldOrder | src/core/extract-gql-types.ts:37-41 | two types with the same name and the same field names have the same key, whatever the order, repetition or field types |
| ExtractTypes.Candidates | src/core/extract-gql-types.ts:164-174 | the names the rename loop tries: one per path suffix, then 100 numbered ones |
| ExtractTypes.PathCandidates | src/core/extract-gql-types.ts:169-170 | the path-suffix names, the shortest suffix first |
| ExtractTypes.CounterCandidates | src/core/extract-gql-types.ts:171-172 | the numbered names, counter 1 to 100 |
| ExtractTypes.PickName | src/core/extract-gql-types.ts:168-174 | the first candidate nobody has claimed, or the last candidate when every one is claimed |
| ExtractTypes.NameChoiceSpec | src/core/extract-gql-types.ts:154-179 | a known content key reuses its name and leaves the registry alone; a free name is kept; otherwise the first free candidate is taken; the registry stays valid, only grows, and maps the chosen name and its new key |
| ExtractTypes.NameChoiceKeepsNamesApart | src/core/extract-gql-types.ts:154-179 | unless every candidate was taken, distinct content keys keep distinct names |
| ExtractTypes.Deduplicated | src/core/extract-gql-types.ts:181-193 | the first output shape carries the name chosen for the input shape |
| ExtractTypes.DeduplicatedFields | src/core/extract-gql-types.ts:184-191 | one output field per input field |
| ExtractTypes.DeduplicatedField | src/core/extract-gql-types.ts:185-190 | the output field refers to its type by name, and everything else about it is unchanged; a nested shape is replaced by the name of the first shape its deduplication outputs |
| ExtractTypes.DeduplicatedFieldsKeep | src/core/extract-gql-types.ts:184-191 | every field comes out referring to its shape by name and otherwise as it was |
| ExtractTypes.DeduplicatedFieldsRefer | src/core/extract-gql-types.ts:184-191 | field `i` that held a nested shape now names the output shape at the position right after the shapes nested in fields `0..i-1`, which is the first shape deduplicated for it |
| ExtractTypes.DeduplicatedResolves | src/core/extract-gql-types.ts:181-193 | every field of the output that refers to a type by name refers to an output shape, unless the input field already named that type |
| ExtractTypes.DeduplicatedFieldsResolve | src/core/extract-gql-types.ts:184-191 | the same for the fields of one shape and the shapes nested in them |
| ExtractTypes.DeduplicatedAllResolves | src/core/extract-gql-types.ts:195-199 | the same for every shape of the list, deduplicated in turn on one registry |
| ExtractTypes.DeduplicatedShapes | src/core/extract-gql-types.ts:181-193 | apart from names and field types, the output is the shapes the walk met, in pre-order |
| ExtractTypes.DeduplicatedFlat | src/core/extract-gql-types.ts:181-193 | every output shape refers to other shapes by name only |
| ExtractTypes.DeduplicatedRegisters | src/core/extract-gql-types.ts:154-193 | the registry stays valid, only grows, and holds the content key of every output shape |
| ExtractTypes.DeduplicatedAll | src/core/extract-gql-types.ts:195-199 | every shape of every input, deduplicated on one registry: all of them flat, in pre-order |
| ExtractTypes.FirstShapeKeepsName | src/core/extract-gql-types.ts:195-199 | on a fresh registry the first input shape keeps its own name |
| ExtractTypes.DeduplicatedTypes | src/core/extract-gql-types.ts:195-203 | one shape per content key, every key of the deduplicated shapes present, each entry the last shape with its key, ordered by the first occurrence of its key, all flat |
| ExtractTypes.DeduplicatedTypesFirst | src/core/extract-gql-types.ts:195-203 | on a fresh registry the first input shape comes out first, under its own name, and has fields exactly when it had some |
| ExtractTypes.DeduplicatedTypesKeepNames | src/core/extract-gql-types.ts:195-203 | every name deduplication gave a shape is still the name of a shape in the final list |
| ExtractTypes.DeduplicatedTypesResolve | src/core/extract-gql-types.ts:195-203 | after the last step, every field that refers to a type by name refers to a shape of the list, unless an input field already named that type |
| ExtractTypes.ExtractedTypes | src/core/extract-gql-types.ts:205-218 | nothing for a non-operation; otherwise flat shapes with distinct content keys, `RequestType` first, with fields exactly when the operation declares variables |
| ExtractTypes.ExtractedTypesResolve | src/core/extract-gql-types.ts:205-218 | every field of the extracted types that refers to a type by name refers to one of them, unless the walk itself named that type (a scalar or an enum value) |
| ExtractTypes.TypeRegistry.constructor | src/core/extract-gql-types.ts:195 | a fresh registry is empty |
| ExtractTypes.TypeRegistry.DeduplicateGQLTypeName | src/core/extract-gql-types.ts:154-179 | returns the name and leaves the registry that `NameChoice` gives for the old registry |
| ExtractTypes.TypeRegistry.DeduplicateGQLType | src/core/extract-gql-types.ts:181-193 | the result and the new registry are `Deduplicated` of the old registry |
| ExtractTypes.TypeRegistry.DeduplicateGQLField | src/core/extract-gql-types.ts:184-191 | the result and the new registry are `DeduplicatedField` of the old registry |
| ExtractTypes.NextFreeName | src/core/extract-gql-types.ts:164-174 | the `while` loop returns `PickName` of the candidates |
| ExtractTypes.NextCandidate | src/core/extract-gql-types.ts:169-173 | the name tried for a given index and counter is the matching candidate |
| ExtractTypes.DeduplicateGQLTypes | src/core/extract-gql-types.ts:195-203 | equals `DeduplicatedTypes` |
| ExtractTypes.ExtractGQLTypes | src/core/extract-gql-types.ts:205-218 | equals `ExtractedTypes` |
| TSTree.GetTSChildNodes | src/core/typescript-util.ts:38-46 | the node's children, in order, each below the node |
| TSTree.FilterTSNodesByKind | src/core/typescript-util.ts:34-36 | nothing without a source; otherwise exactly the direct children of that kind |
| TSTree.TraverseTSNodes | src/core/typescript-util.ts:48-63 | the first node, in depth-first visit order, that the filter accepts at its depth; always strictly below the start |
| TSTree.VisitedAreBelow | src/core/typescript-util.ts:48-63 | the traversal visits only nodes below the start |
| TSTree.FirstOfAppend | src/core/typescript-util.ts:54-62 | a match among the earlier visits wins over any later one |
| TSTree.Selected | src/core/typescript-util.ts:67-79 | no start gives nothing; a node found lies below the start |
| TSTree.SelectTSNode | src/core/typescript-util.ts:67-79 | equals `Selected` |
| TSTree.SelectedAll | src/core/typescript-util.ts:81-98 | no filters gives an empty list; two or more filters give `undefined` (the first traversal returns nothing); every node found lies below the start |
| TSTree.SelectedAllFindsEvery | src/core/typescript-util.ts:81-98 | with one filter, every accepted node below the start is collected |
| TSTree.SelectTSNodes | src/core/typescript-util.ts:81-98 | equals `SelectedAll` |
| TSTree.CollectTSNodes | src/core/typescript-util.ts:88-95 | the nodes pushed are exactly the accepted visits, in visit order |
| TSTree.MatchingSpec | src/core/typescript-util.ts:88-95 | only accepted visits are collected, and every accepted visit is |
| TSTree.GetTSNodeName | src/core/typescript-util.ts:142-149 | `undefined` exactly for no node, otherwise the node's text |
| TSUtil.ToJSType | src/core/typescript-util.ts:7-20 | a keyword exactly for the built-in scalars, never `undefined` |
| TSUtil.CreateType | src/core/typescript-util.ts:233-250 | a union with `undefined` exactly when allowed; inside it an array exactly when `isArray`; a keyword exactly for a scalar, otherwise a reference to the name |
| TSUtil.CreateInterface | src/core/typescript-util.ts:252-278 | one property per field, in order, optional exactly when the field may be null, typed by `createType`; then an optional literal `__typename` exactly when there is an original name |
| TSUtil.CreateEnum | src/core/typescript-util.ts:280-292 | one member per field, initialised with the field's type name |
| TSUtil.EnumOfSchemaEnum | src/core/typescript-util.ts:280-292 | a schema enum becomes an enum of its values, each initialised with itself, in schema order |
| TSUtil.CreateUnion | src/core/typescript-util.ts:294-306 | an alias of the union of references to the field names, in order |
| TSUtil.UniqueImportsSpec | src/core/typescript-util.ts:184-186 | each imported name once, none lost and none added, in first-occurrence order |
| TSUtil.CreateNamedImports | src/core/typescript-util.ts:182-189 | one import per module, in the order modules were added, naming that module's imports without repeats |
| GenerateHook.CreateSkip | src/core/generate-gql-hook.ts:125-152 | no guard exactly when nothing is required; otherwise a `skip` property assignment |
| GenerateHook.SkipFoldMeaning | src/core/generate-gql-hook.ts:138-150 | the folded `||` chain holds exactly when the seed holds or some folded variable is falsy |
| GenerateHook.SkipMeaning | src/core/generate-gql-hook.ts:125-152 | the skip guard holds exactly when some required variable is missing (falsy) in the request |
| GenerateHook.CreateQueryHook | src/core/generate-gql-hook.ts:26-123 | `request` is declared only with variables, optional when the request is; `options` is typed by the lazy or plain options type; the call's type arguments; `variables: request`, then the skip guard exactly for a non-lazy query with required variables, then `...options` |
| GenerateHook.CreateOptionsOnlyHook | src/core/generate-gql-hook.ts:154-276 | only an optional `options` parameter, typed `<Options><Data, RequestType or never>`; the react hook is called with the request text and `options` |
| GenerateHook.CreateMutationHook | src/core/generate-gql-hook.ts:154-214 | the options-only hook typed by `MutationHookOptions` and `MutationType` |
| GenerateHook.CreateSubscriptionHook | src/core/generate-gql-hook.ts:216-276 | the options-only hook typed by `SubscriptionHookOptions` and `SubscriptionType` |
| GenerateHook.UniqueNameSkipsNonFields | src/core/generate-gql-hook.ts:324-333 | inline fragments and spreads do not change the hook's unique name |
| GenerateHook.UniqueNameOfOneField | src/core/generate-gql-hook.ts:324-333 | a single field names the hook after the class-cased field name |
| GenerateHook.FindRequest | src/core/generate-gql-hook.ts:336 | the first type named `RequestType`; none exactly when there is no such type |
| GenerateHook.HasRequestVariables | src/core/generate-gql-hook.ts:335-338 | true only when a request type exists |
| GenerateHook.ExtractedRequestVariables | src/core/generate-gql-hook.ts:335-338 | on an operation's extracted types, true exactly when the operation declares a variable |
| GenerateHook.RequiredNames | src/core/generate-gql-hook.ts:342 | exactly the names of the non-null fields |
| GenerateHook.FindRequiredRequestVariables | src/core/generate-gql-hook.ts:340-343 | nothing is required without a request type |
| GenerateHook.OptionalIffNothingRequired | src/core/generate-gql-hook.ts:371-374 | the request is optional exactly when it exists and requires no variable |
| GenerateHook.RequiredVariablesOfRequest | src/core/generate-gql-hook.ts:340-343 | the request's required variables are exactly the variable definitions with a non-null wrapper, in order |
| GenerateHook.LowerSegments | src/core/generate-gql-hook.ts:352-354 | the lower-cased dash segments of the dashed name |
| GenerateHook.LazyPrefixMakesLazy | src/core/generate-gql-hook.ts:352-355 | a variable name that starts with the word `lazy` (`lazyUsersQuery`) holds a lazy query |
| GenerateHook.LazyWordMakesLazy | src/core/generate-gql-hook.ts:352-355 | a variable name with the word `Lazy` after its first word (`usersLazyQuery`) holds a lazy query |
| GenerateHook.LazyOnlyAsWholeWord | src/core/generate-gql-hook.ts:352-355 | a single lower-case word holds a lazy query only when it is `lazy` itself, so `lazy` inside a word (`lazyish`) does not count |
| GenerateHook.HookNamesShape | src/core/generate-gql-hook.ts:357-366 | the hook is `use` + ClassName(name-operation); the react hook is `useLazyQuery` for a lazy query and `use` + ClassName(operation) otherwise |
| GenerateHook.DeclarationFor | src/core/generate-gql-hook.ts:376-384 | a declaration exactly for an interface with fields or an enum, under the type's name |
| GenerateHook.DeclarationsCover | src/core/generate-gql-hook.ts:376-418 | every interface with fields and every enum is declared |
| GenerateHook.HookForOperation | src/core/generate-gql-hook.ts:345-421 | nothing for a non-operation; an operation succeeds exactly when its types extract, ends with the hook function, and imports two names |
| GenerateHook.OperationHookOf | src/core/generate-gql-hook.ts:376-418 | the declarations followed by the hook function, importing the options type and the react hook |
| GenerateHook.OnlyQueriesSkip | src/core/generate-gql-hook.ts:391-417 | mutations and subscriptions pass only the request text and `options`; a query with variables has a skip guard exactly when it is not lazy and some variable is required |
| GenerateHook.AddImports | src/core/generate-gql-hook.ts:386-389 | a new module is added last; a known module keeps its place |
| GenerateHook.AddImportsSpec | src/core/generate-gql-hook.ts:386-389 | modules stay distinct; the module's names grow by exactly the pushed names; every other module is unchanged |
| GenerateHook.AddImportsTwice | src/core/generate-gql-hook.ts:388-389 | two pushes add both names, in order |
| GenerateHook.HookContext.constructor | src/core/generate-gql-hook.ts:460 | the context starts with no imports and the chosen package |
| GenerateHook.HookContext.GenerateHookForOperation | src/core/generate-gql-hook.ts:345-421 | returns `HookForOperation`'s statements or error; for an operation whose types extract, the options type and the react hook are pushed onto the package's imports; otherwise the imports are unchanged |
| GenerateHook.IdentifyLibrarySpec | src/core/generate-gql-hook.ts:431-444 | no library without an import of a react hook; a library found is the string-literal module of the first such import |
| GenerateHook.ImportOfHook | src/core/generate-gql-hook.ts:434-438 | `import { name } from 'module'` counts as an import of a react hook exactly when the specifier's name identifier is `useQuery`, `useMutation` or `useSubscription` |
| GenerateHook.IdentifiesApolloImport | src/core/generate-gql-hook.ts:431-444 | `import { useQuery } from '@apollo/client'` identifies `@apollo/client` |
| GenerateHook.IgnoresOtherImports | src/core/generate-gql-hook.ts:431-444 | `import { gql } from '@apollo/client'` alone identifies no library |
| GenerateHook.ExtractedGQL | src/core/generate-gql-hook.ts:287-322 | fails with the "Could not identify GraphQL query" message when no declaration holds a non-empty request; otherwise the text of the first request declaration below the file |
| GenerateHook.ExtractedGQLIsFirst | src/core/generate-gql-hook.ts:288-297 | the declaration used is the first one, in visit order, holding a `gql`-tagged or plain template |
| GenerateHook.ExtractGQL | src/core/generate-gql-hook.ts:287-322 | equals `ExtractedGQL` |
| GenerateHook.DocumentImportsOnePackage | src/core/generate-gql-hook.ts:460-465 | the gathered imports name at most one module: the package the hooks come from |
| GenerateHook.InsertBySpecifier | src/core/generate-gql-hook.ts:467-470 | inserting into a sorted import list keeps it sorted by module, and adds exactly that statement |
| GenerateHook.SortImports | src/core/generate-gql-hook.ts:467-470 | sorted by module specifier and a permutation of its input |
| GenerateHook.ImportStatementsSorted | src/core/generate-gql-hook.ts:467-470 | the import block is sorted and contains `import gql from 'graphql-tag'` |
| GenerateHook.GeneratedImportsSorted | src/core/generate-gql-hook.ts:451-472 | the generated file's import block is sorted and imports `gql` from `graphql-tag` |
| GenerateHook.GenerateGQLHook | src/core/generate-gql-hook.ts:451-475 | equals `GeneratedGQLHook`: extract, parse, complete, generate the hooks and the import block |
| GenerateHook.GenerateHooks | src/core/generate-gql-hook.ts:462-465 | the loop over the definitions with one shared context gives `HooksForDocument`'s statements, imports or error |
| GenerateHook.FailureSpreads | src/core/generate-gql-hook.ts:462-465 | a definition that fails makes the whole document fail with its error |
| LegacyFix.VariableArguments | src/fix-gql-request.ts:23 | every declared argument bound to the variable of its own name, in order |
| LegacyFix.FirstObjectNamedFinds | src/graphql-util.ts:30-35 | the front-to-back scan finds exactly what `findObjectType` finds |
| LegacyFix.FirstFieldNamedFinds | src/graphql-util.ts:37-42 | the front-to-back scan finds exactly what `findField` finds |
| LegacyFix.FixedSelectionMeaning | src/fix-gql-request.ts:15-27 | a field fails exactly when the root type or the field is missing, with that lookup's error; otherwise its arguments become the declared ones bound to same-named variables, and those definitions are added; any other selection is kept |
| LegacyFix.AddedOfOne | src/fix-gql-request.ts:19-24 | a rewritten selection refers to exactly the argument definitions it added, by name and in order |
| LegacyFix.FixedSelections | src/fix-gql-request.ts:15-27 | one output per top-level selection |
| LegacyFix.FixedSelectionsShape | src/fix-gql-request.ts:15-27 | every selection keeps its place; a field keeps its name and its nested selections untouched; other selections are unchanged |
| LegacyFix.AddedMatchReferenced | src/fix-gql-request.ts:15-27 | the added argument definitions name exactly the variables the rewritten fields refer to, in order and with repeats |
| LegacyFix.FixedDocument | src/fix-gql-request.ts:10-35 | one output definition per input definition |
| LegacyFix.VariableDefinitions | src/fix-gql-request.ts:31 | one variable definition per gathered argument, in order |
| LegacyFix.ArgumentsOnlyGrow | src/fix-gql-request.ts:11-20 | what the first k definitions gathered is a prefix of the whole list |
| LegacyFix.FixedDefinitionAt | src/fix-gql-request.ts:28-32 | an operation keeps its kind, name and selection count, and declares every argument gathered so far, undeduplicated; other definitions are unchanged |
| LegacyFix.EarlierVariablesLeak | src/fix-gql-request.ts:11-31 | an operation also declares the variables of every operation before it |
| LegacyFix.FixSelections | src/fix-gql-request.ts:15-27 | equals `FixedSelections`, with `args` grown by the added definitions |
| LegacyFix.FixGQLRequest | src/fix-gql-request.ts:10-37 | equals `FixedDocument` |
| LegacyExtract.ParseFieldAttributes | src/extract-gql-types.ts:28-37 | the innermost named type; non-null and array exactly when such a wrapper occurs |
| LegacyExtract.AttributesOfWrapped | src/extract-gql-types.ts:28-37 | attributes depend only on which wrappers occur, not on their order or number |
| LegacyExtract.MapEachFieldSpec | src/extract-gql-types.ts:43-55 | an absent set gives nothing; a present one gives the caller's result per selection, or the error of the first non-field or rejected selection |
| LegacyExtract.TypeInfoFields | src/extract-gql-types.ts:69-84 | the type has the given name and path and one field per selection, in order, with the declared field's attributes; it fails exactly when some selection is not a declared field |
| LegacyExtract.TypesBelowPath | src/extract-gql-types.ts:107-115 | the object's own type comes first, at the path, and every extracted type lives at or below the path |
| LegacyExtract.NestedSelectionFirst | src/extract-gql-types.ts:86-105 | a non-scalar field with a selection set contributes its type first, one field name further down the path |
| LegacyExtract.TypesOfVariableAsWritten | src/extract-gql-types.ts:131-137 | as written, only a scalar variable succeeds; a non-scalar one throws |
| LegacyExtract.ObjectVariableThrowsAsWritten | src/extract-gql-types.ts:135 | a variable of a declared object type throws as written, while the field-less type evidently intended follows |
| LegacyExtract.DeclaresObjectFinds | src/graphql-util.ts:30-35 | the recursive test holds exactly when some definition is an object type of that name |
| LegacyExtract.VariableObjectLookup | src/extract-gql-types.ts:117-139 | a non-scalar variable succeeds exactly when an object type of that name exists, adding that type with no fields; otherwise it fails with `findObjectType`'s message |
| LegacyExtract.GQLTypesStartWithRequest | src/extract-gql-types.ts:141-159 | the output starts with `Request` at `variables`, one field per variable; the operation's root type follows the request types, at the operation keyword |
| LegacyExtract.ExtractTypes | src/extract-gql-types.ts:107-115 | equals `ExtractedTypes` |
| LegacyExtract.ParseSelections | src/extract-gql-types.ts:111-113 | equals `ParsedSelections` of the whole set |
| LegacyExtract.ParseSelection | src/extract-gql-types.ts:86-105 | equals `ParsedSelection` |
| LegacyExtract.ExtractRequestType | src/extract-gql-types.ts:117-139 | equals `ExtractedRequestType` |
| LegacyExtract.ExtractVariableTypes | src/extract-gql-types.ts:131-137 | equals `VariableTypes` of every variable |
| LegacyExtract.ExtractGQLTypes | src/extract-gql-types.ts:141-159 | equals `ExtractedGQLTypes` |
| LegacyHook.CreateSkipObject | src/generate-gql-hook.ts:85-117 | no object exactly when nothing is required; otherwise an object literal with one property |
| LegacyHook.SkipObjectMeaning | src/generate-gql-hook.ts:85-117 | that property is `skip`, and it holds exactly when some required variable is falsy |
| LegacyHook.CreateHook | src/generate-gql-hook.ts:26-83 | a required `request: RequestType` parameter; the react hook typed `<RequestType, Response>` and called with the request text, `request`, and the skip object exactly when a variable is required |
| LegacyHook.InterfaceStatements | src/generate-gql-hook.ts:180-184 | one entry per extracted type, an interface exactly for an interface type |
| LegacyHook.InterfaceStatementsMeaning | src/generate-gql-hook.ts:180-184 | each interface is named after its type, with one property per field, optional exactly when nullable, allowing `undefined` exactly in the request |
| LegacyHook.LegacyHookForOperation | src/generate-gql-hook.ts:171-204 | nothing for a non-operation; an operation succeeds exactly when its types extract, and gives one statement per type, then the hook, and imports one name |
| LegacyHook.LegacyHookNames | src/generate-gql-hook.ts:186-189 | the hook is `use` + ClassName(name-operation); it calls and imports `use` + ClassName(operation), typed by the request and `<Op>Type` |
| LegacyHook.EveryOperationSkips | src/generate-gql-hook.ts:194-200 | queries, mutations and subscriptions alike pass the skip object exactly when a variable is required, and it skips exactly when one is falsy |
| LegacyHook.HookContext.constructor | src/generate-gql-hook.ts:210 | the context starts with no imports |
| LegacyHook.HookContext.GenerateHookForOperation | src/generate-gql-hook.ts:171-204 | returns `LegacyHookForOperation`'s statements or error; for an operation, the react hook is pushed onto `@apollo/react`'s imports |
| LegacyHook.ImportsOnlyReactHook | src/generate-gql-hook.ts:191-192 | one operation adds its react hook to `@apollo/react` and leaves every other module's imports alone |

## Left out

- Reading and writing files, `console.log`, `printTS`/`createTSContent`, `createGQLQuery` and the prettier pass. `generateGQLHook` is modelled up to the statements it would print.
- The GraphQL parser and printer are not modelled. `GenerateHook.GeneratedGQLHook` takes `parse` as a parameter and assumes the printed request parses back to the completed definitions.
- The TypeScript parser is not modelled. The source file is given as an already parsed `TSTree.TSNode`.
- `md5Hex` is not modelled. `GenerateGQLTypeId` keeps the content key itself (name and field-name set), so hash collisions are not modelled.
- `name-util` is not part of this model. `toClassName`, `toCamelCase` and `toDashedName` get a concrete meaning on dash-separated segments, chosen to agree with the examples the tests show.
- `src/core/graphql-util.ts` is not part of this model. Its `findSchemaType`, nullable `findField` and `isScalarType` are modelled from their uses and from `src/graphql-util.ts`.
- GenerateHook.SortImports: `localeCompare` is replaced by code-unit order. Only sortedness and permutation are stated, not the locale's collation.
- The UNION kind is left out. `extractGQLTypes` never produces it, so `generateHookForOperation` never calls `createUnion` (`TSUtil.CreateUnion` is still modelled).
- ExtractTypes.ExtractGQLFieldType: recursion through input objects reached without a selection set is bounded by `fuel`. Running out of fuel is an error, where the source recurses without bound; the call stack is not modelled.
- Property order of JavaScript objects (`Object.keys`, `Object.values`) is modelled as insertion order. Integer-like keys, which JavaScript orders first, are not modelled.
- Caller arguments are modelled only as variable references (`id: $userId`). Literal argument values are not modelled.
- LegacyFix.VariableArguments: `.map(inputValueDefToVariable)` would pass the element index as the variable map, where the shown `inputValueDefToVariable` expects an array. The model binds every argument to its own name with an empty map, as the legacy tests expect.
- LegacyFix.RootTypeName: `findOperation` is imported from a module that does not export it. It is modelled as the root object type for the operation kind.
- An absent `isNonNull` or `isArray` is modelled as false.
- Enum fields carry no nested type.
- Errors the source cannot reach are not modelled. An example is "Invalid TypeNode!", which needs a type node of an unknown kind.
- The legacy `generateGQLHook` and `extractGQL` of `src/generate-gql-hook.ts` are not modelled separately. Their steps are the core ones without library detection and without plain-template requests.
- The legacy hook generator is modelled over the core extracted types and the core `createInterface`, because the legacy modules do not export the types it imports.
- `generateUniqueName` and `findRequiredRequestVariables` are modelled once. Both files hold the same code.
- The traversal helpers of `src/typescript-util.ts` are modelled once, by `TSTree`. Both files hold the same code.
- `propertyAssignmentSelector`, `callExpressionSelector`, `propertyAccessExpressionSelector`, `newExpressionSelector`, `printTSTree`, `readAndParseTSFile` and `parseTSFile` are not modelled. The core never calls them.
- The text of the `TypeError` in `LegacyExtract.TypesOfVariableAsWritten` is V8's. Other engines word it differently.

## Findings

| source | as written | input that shows it | evidently intended | confidence | as-written member | corrected member |
|---|---|---|---|---|---|---|
| src/graphql-util.ts:21-23 | `!!ScalarToJSType[type]` also reads inherited `Object.prototype` members, so names like `constructor` or `toString` count as scalars | a schema type named `constructor` | only the five built-in scalars are scalars | not executed | GraphQLUtil.PrototypeNameReadsAsScalar | GraphQLUtil.IsScalarType |
| src/core/fix-gql-request.ts:68 | `[initialContext.path, queryName].join('.')` puts the path array into the message as one comma-joined element | path `["user", "followers"]`, field `x` gives `user,followers.x`; at the top level, `[[], 'x'].join('.')` gives `.x` (FixRequest.InvalidFieldMessageShowsLeadingDot) | the dotted path `user.followers.x`, and `x` at the top level, as the extractor reports it | not executed | FixRequest.InvalidFieldMessageShowsCommas | FixRequest.InvalidFieldMessageNamesPath |
| src/extract-gql-types.ts:135 | `extractTypes(type, {} as any, context)` passes an object without `selections`, and `mapEachField` then calls `.map` on `undefined` | a variable `$user: User` where `User` is an object type; only such a variable reaches line 135, and an object-typed variable is not valid GraphQL, while input-object and enum variables fail earlier in `findObjectType` in both halves | no `TypeError`; the corrected half reads `{}` as no selection set and adds the type with no fields, which is a guess (the core successor lists every declared field instead) | not executed | LegacyExtract.ObjectVariableThrowsAsWritten | LegacyExtract.VariableObjectLookup |
