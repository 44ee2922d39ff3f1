/**
 * `src/core/generate-gql-hook.ts`: from a TypeScript file holding a `gql`
 * request to the hook declarations, the type declarations and the import
 * statements generated for it. The hook-shape decisions (skip guard,
 * required and optional request, lazy queries, names) and the import
 * bookkeeping are modelled; parsing, printing and formatting are not.
 */
module GenerateHook {
  import opened Wrappers
  import opened Names
  import opened Collections
  import opened GraphQL
  import opened GraphQLUtil
  import opened ExtractTypes
  import opened FixRequest
  import opened TSTree
  import opened TSUtil

  // ---------------------------------------------------------------- skip guard

  /** `!request.<name>` */
  function NotRequest(name: string): Expr
  {
    Not(PropertyAccess(Ident("request"), name))
  }

  /** `names.reduce((a, i) => a || !request.i, acc)` */
  function SkipFold(acc: Expr, names: seq<string>): Expr
    decreases |names|
  {
    if names == [] then acc else SkipFold(Or(acc, NotRequest(names[0])), names[1..])
  }

  /**
   * `createSkip`: nothing for no required variables; otherwise the property
   * `skip: !request.v1 || ... || !request.vn`, associated to the left.
   */
  function CreateSkip(requiredVariables: seq<string>): (r: Option<ObjectProperty>)
    ensures r.None? <==> requiredVariables == []
    ensures r.Some? ==> r.value.PropertyAssignment? && r.value.name == "skip"
  {
    if requiredVariables == [] then None
    else Some(PropertyAssignment("skip", SkipFold(NotRequest(requiredVariables[0]), requiredVariables[1..])))
  }

  /** The fold grows to the left: one more name is one more `||` around everything before it. */
  lemma {:induction false} SkipFoldLeft(acc: Expr, names: seq<string>, name: string)
    ensures SkipFold(acc, names + [name]) == Or(SkipFold(acc, names), NotRequest(name))
    decreases |names|
  {
    if names == [] {
      assert ([] + [name])[1..] == [];
    } else {
      assert (names + [name])[0] == names[0];
      assert (names + [name])[1..] == names[1..] + [name];
      SkipFoldLeft(Or(acc, NotRequest(names[0])), names[1..], name);
    }
  }

  /** Whether a guard built from `!request.v` and `||` holds when `truthy` says which request values are truthy. */
  function Skips(guard: Expr, truthy: string -> bool): bool
  {
    match guard
    case Not(PropertyAccess(Ident("request"), name)) => !truthy(name)
    case Or(left, right) => Skips(left, truthy) || Skips(right, truthy)
    case _ => false
  }

  lemma {:induction false} SkipFoldMeaning(acc: Expr, names: seq<string>, truthy: string -> bool)
    ensures Skips(SkipFold(acc, names), truthy) <==>
              Skips(acc, truthy) || exists i :: 0 <= i < |names| && !truthy(names[i])
    decreases |names|
  {
    if names != [] {
      SkipFoldMeaning(Or(acc, NotRequest(names[0])), names[1..], truthy);
      if exists i :: 0 <= i < |names[1..]| && !truthy(names[1..][i]) {
        var i :| 0 <= i < |names[1..]| && !truthy(names[1..][i]);
        assert names[i + 1] == names[1..][i];
      }
      if exists i :: 0 <= i < |names| && !truthy(names[i]) {
        var i :| 0 <= i < |names| && !truthy(names[i]);
        if i > 0 {
          assert names[1..][i - 1] == names[i];
        }
      }
    }
  }

  /** The query is skipped exactly when some required variable is missing (falsy) in the request. */
  lemma SkipMeaning(requiredVariables: seq<string>, truthy: string -> bool)
    requires requiredVariables != []
    ensures Skips(CreateSkip(requiredVariables).value.value, truthy) <==>
              exists i :: 0 <= i < |requiredVariables| && !truthy(requiredVariables[i])
  {
    var names := requiredVariables;
    SkipFoldMeaning(NotRequest(names[0]), names[1..], truthy);
    if exists i :: 0 <= i < |names[1..]| && !truthy(names[1..][i]) {
      var i :| 0 <= i < |names[1..]| && !truthy(names[1..][i]);
      assert names[i + 1] == names[1..][i];
    }
    if exists i :: 0 <= i < |names| && !truthy(names[i]) {
      var i :| 0 <= i < |names| && !truthy(names[i]);
      if i > 0 {
        assert names[1..][i - 1] == names[i];
      }
    }
  }

  // ---------------------------------------------------------------- hook declarations

  function Ref(name: string): TypeNode
  {
    TypeReference(name, [])
  }

  /** The request type argument: `RequestType` when there are variables, else `never`. */
  function RequestTypeArgument(hasVariables: bool): TypeNode
  {
    Ref(if hasVariables then "RequestType" else "never")
  }

  datatype QueryHookInput = QueryHookInput(
    hookName: string,
    responseType: string,
    reactHookName: string,
    gqlVariableName: string,
    isLazyQuery: bool,
    requiredRequestVariables: Option<seq<string>>,
    hasVariables: bool,
    isRequestOptional: bool)

  /** A skip guard is passed exactly for a non-lazy query with at least one required variable. */
  predicate SkipsWhenIncomplete(h: QueryHookInput)
  {
    !h.isLazyQuery && h.requiredRequestVariables.Some? && h.requiredRequestVariables.value != []
  }

  /**
   * `createQueryHook`: `request` is declared when there are variables and is
   * optional when the request is; `options` is always optional. The react
   * hook gets the request as `variables`, the skip guard when there is one,
   * and the options spread after them; without variables it gets the options
   * as they are.
   */
  function CreateQueryHook(h: QueryHookInput): (r: Statement)
    ensures r.FunctionDeclaration? && r.name == h.hookName
    ensures |r.parameters| == if h.hasVariables then 2 else 1
    ensures h.hasVariables ==> r.parameters[0] == Parameter("request", h.isRequestOptional, Ref("RequestType"))
    ensures var options := r.parameters[|r.parameters| - 1];
            options.name == "options" && options.optional &&
            options.typeNode == TypeReference(if h.isLazyQuery then "LazyQueryHookOptions" else "QueryHookOptions",
                                              [Ref("QueryType"), RequestTypeArgument(h.hasVariables)])
    ensures r.returned.Call? && r.returned.callee == h.reactHookName
    ensures r.returned.typeArguments == [Ref(h.responseType), RequestTypeArgument(h.hasVariables)]
    ensures |r.returned.arguments| == 2 && r.returned.arguments[0] == Ident(h.gqlVariableName)
    ensures !h.hasVariables ==> r.returned.arguments[1] == Ident("options")
    ensures h.hasVariables ==>
              var call := r.returned.arguments[1];
              && call.ObjectLiteral?
              && |call.properties| == (if SkipsWhenIncomplete(h) then 3 else 2)
              && call.properties[0] == PropertyAssignment("variables", Ident("request"))
              && call.properties[|call.properties| - 1] == SpreadAssignment(Ident("options"))
              && (SkipsWhenIncomplete(h) ==> call.properties[1] == CreateSkip(h.requiredRequestVariables.value).value)
  {
    var request := if h.hasVariables then [Parameter("request", h.isRequestOptional, Ref("RequestType"))] else [];
    var options := Parameter("options", true,
      TypeReference(if h.isLazyQuery then "LazyQueryHookOptions" else "QueryHookOptions",
                    [Ref("QueryType"), RequestTypeArgument(h.hasVariables)]));
    var skip :=
      if !h.isLazyQuery && h.requiredRequestVariables.Some? then CreateSkip(h.requiredRequestVariables.value)
      else None;
    var properties :=
      [PropertyAssignment("variables", Ident("request"))]
      + (if skip.Some? then [skip.value] else [])
      + [SpreadAssignment(Ident("options"))];
    var second := if h.hasVariables then ObjectLiteral(properties) else Ident("options");
    FunctionDeclaration(h.hookName, request + [options],
      Call(h.reactHookName, [Ref(h.responseType), RequestTypeArgument(h.hasVariables)],
           [Ident(h.gqlVariableName), second]))
  }

  datatype HookInput = HookInput(
    hookName: string,
    responseType: string,
    reactHookName: string,
    gqlVariableName: string,
    hasVariables: bool)

  /**
   * The shape shared by `createMutationHook` and `createSubscriptionHook`:
   * only an optional `options` parameter, passed on with the request text.
   */
  function CreateOptionsOnlyHook(h: HookInput, optionsType: string, dataType: string): (r: Statement)
    ensures r.FunctionDeclaration? && r.name == h.hookName
    ensures |r.parameters| == 1 && r.parameters[0].name == "options" && r.parameters[0].optional
    ensures r.parameters[0].typeNode == TypeReference(optionsType, [Ref(dataType), RequestTypeArgument(h.hasVariables)])
    ensures r.returned.Call? && r.returned.callee == h.reactHookName
    ensures r.returned.typeArguments == [Ref(h.responseType), RequestTypeArgument(h.hasVariables)]
    ensures r.returned.arguments == [Ident(h.gqlVariableName), Ident("options")]
  {
    FunctionDeclaration(h.hookName,
      [Parameter("options", true, TypeReference(optionsType, [Ref(dataType), RequestTypeArgument(h.hasVariables)]))],
      Call(h.reactHookName, [Ref(h.responseType), RequestTypeArgument(h.hasVariables)],
           [Ident(h.gqlVariableName), Ident("options")]))
  }

  /** `createMutationHook` */
  function CreateMutationHook(h: HookInput): (r: Statement)
    ensures r == CreateOptionsOnlyHook(h, "MutationHookOptions", "MutationType")
    ensures r.parameters[0].typeNode.typeName == "MutationHookOptions"
  {
    CreateOptionsOnlyHook(h, "MutationHookOptions", "MutationType")
  }

  /** `createSubscriptionHook` */
  function CreateSubscriptionHook(h: HookInput): (r: Statement)
    ensures r == CreateOptionsOnlyHook(h, "SubscriptionHookOptions", "SubscriptionType")
    ensures r.parameters[0].typeNode.typeName == "SubscriptionHookOptions"
  {
    CreateOptionsOnlyHook(h, "SubscriptionHookOptions", "SubscriptionType")
  }

  // ---------------------------------------------------------------- names and flags

  /** The class-cased names of the field selections, in order; other selections give nothing. */
  function FieldClassNames(selections: seq<Selection>): seq<string>
    decreases |selections|
  {
    if selections == [] then []
    else
      var n := |selections| - 1;
      FieldClassNames(selections[..n])
      + (if selections[n].Field? then [ToClassName(selections[n].name)] else [])
  }

  function NonEmpty(names: seq<string>): (r: seq<string>)
    ensures forall i :: 0 <= i < |r| ==> r[i] != ""
  {
    if names == [] then []
    else (if names[0] != "" then [names[0]] else []) + NonEmpty(names[1..])
  }

  lemma {:induction false} NonEmptyAppend(a: seq<string>, b: seq<string>)
    ensures NonEmpty(a + b) == NonEmpty(a) + NonEmpty(b)
  {
    if a == [] {
      assert a + b == b;
    } else {
      assert (a + b)[0] == a[0] && (a + b)[1..] == a[1..] + b;
      NonEmptyAppend(a[1..], b);
    }
  }

  /** `generateUniqueName`: the class-cased top-level field names joined with "And". */
  function GenerateUniqueName(selections: seq<Selection>): string
  {
    Join(NonEmpty(FieldClassNames(selections)), "And")
  }

  lemma {:induction false} FieldClassNamesAppend(a: seq<Selection>, b: seq<Selection>)
    ensures FieldClassNames(a + b) == FieldClassNames(a) + FieldClassNames(b)
    decreases |b|
  {
    if b == [] {
      assert a + b == a;
    } else {
      var n := |b| - 1;
      assert (a + b)[..|a| + n] == a + b[..n];
      assert (a + b)[|a| + n] == b[n];
      FieldClassNamesAppend(a, b[..n]);
    }
  }

  /** Inline fragments and fragment spreads do not take part in the name. */
  lemma UniqueNameSkipsNonFields(before: seq<Selection>, selection: Selection, after: seq<Selection>)
    requires !selection.Field?
    ensures GenerateUniqueName(before + [selection] + after) == GenerateUniqueName(before + after)
  {
    FieldClassNamesAppend(before + [selection], after);
    FieldClassNamesAppend(before, [selection]);
    FieldClassNamesAppend(before, after);
    assert [selection][..0] == [];
    assert FieldClassNames([selection]) == [];
    assert FieldClassNames(before + [selection] + after) == FieldClassNames(before) + FieldClassNames(after);
  }

  /** A single field selection names the hook after that field. */
  lemma UniqueNameOfOneField(field: Selection)
    requires field.Field? && ToClassName(field.name) != ""
    ensures GenerateUniqueName([field]) == ToClassName(field.name)
  {
    assert [field][..0] == [];
    var name := ToClassName(field.name);
    assert FieldClassNames([field]) == [name];
    assert NonEmpty([name]) == [name] + NonEmpty([]);
  }

  /** `dataTypes.find(t => t.name === 'RequestType')` */
  function FindRequest(dataTypes: seq<GQLType>): (r: Option<GQLType>)
    ensures r.None? <==> forall i :: 0 <= i < |dataTypes| ==> dataTypes[i].name != "RequestType"
    ensures r.Some? ==> r.value.name == "RequestType" && r.value in dataTypes
  {
    match FindIndex(dataTypes, (t: GQLType) => t.name == "RequestType")
    case None => None
    case Some(i) => Some(dataTypes[i])
  }

  /** `hasRequestVariables`: there is a request type and it has at least one field. */
  function HasRequestVariables(dataTypes: seq<GQLType>): (r: bool)
    ensures r ==> FindRequest(dataTypes).Some?
  {
    match FindRequest(dataTypes)
    case None => false
    case Some(request) => |request.fields| > 0
  }

  /**
   * On the extracted types of an operation, `hasRequestVariables` holds
   * exactly when the operation declares variables.
   */
  lemma ExtractedRequestVariables(schema: Schema, def: Definition, fuel: nat)
    requires def.OperationDef? && ExtractedTypes(schema, def, fuel).Success?
    ensures HasRequestVariables(ExtractedTypes(schema, def, fuel).value) <==> def.variableDefinitions != []
  {
    var types := ExtractedTypes(schema, def, fuel).value;
    assert FindRequest(types) == Some(types[0]);
  }

  /** The names of the non-null fields, in order. */
  function RequiredNames(fields: seq<GQLField>): (r: seq<string>)
    ensures |r| <= |fields|
    ensures forall i :: 0 <= i < |fields| && fields[i].isNonNull ==> fields[i].name in r
    ensures forall x :: x in r ==> exists i :: 0 <= i < |fields| && fields[i].isNonNull && fields[i].name == x
    decreases |fields|
  {
    if fields == [] then []
    else
      var n := |fields| - 1;
      var r := RequiredNames(fields[..n]) + (if fields[n].isNonNull then [fields[n].name] else []);
      assert forall i :: 0 <= i < n ==> fields[..n][i] == fields[i];
      r
  }

  /** `findRequiredRequestVariables`: the request type's non-null field names; none without a request type. */
  function FindRequiredRequestVariables(dataTypes: seq<GQLType>): (r: seq<string>)
    ensures FindRequest(dataTypes).None? ==> r == []
  {
    match FindRequest(dataTypes)
    case None => []
    case Some(request) => RequiredNames(request.fields)
  }

  /** `isRequestOptional`: there is a request type and none of its fields is non-null. */
  function IsRequestOptional(dataTypes: seq<GQLType>): bool
  {
    match FindRequest(dataTypes)
    case None => false
    case Some(request) => forall i :: 0 <= i < |request.fields| ==> !request.fields[i].isNonNull
  }

  /** The request is optional exactly when it exists and requires no variable. */
  lemma OptionalIffNothingRequired(dataTypes: seq<GQLType>)
    ensures IsRequestOptional(dataTypes) <==>
              FindRequest(dataTypes).Some? && FindRequiredRequestVariables(dataTypes) == []
  {
    match FindRequest(dataTypes)
    case None =>
    case Some(request) =>
      var fields := request.fields;
      if !IsRequestOptional(dataTypes) {
        var i :| 0 <= i < |fields| && fields[i].isNonNull;
        assert fields[i].name in RequiredNames(fields);
      } else {
        NothingRequired(fields);
      }
  }

  lemma {:induction false} NothingRequired(fields: seq<GQLField>)
    requires forall i :: 0 <= i < |fields| ==> !fields[i].isNonNull
    ensures RequiredNames(fields) == []
    decreases |fields|
  {
    if fields != [] {
      NothingRequired(fields[..|fields| - 1]);
    }
  }

  /** The names of the variable definitions whose type is non-null at some depth, in order. */
  function NonNullVariableNames(variableDefinitions: seq<VariableDef>): seq<string>
    decreases |variableDefinitions|
  {
    if variableDefinitions == [] then []
    else
      var n := |variableDefinitions| - 1;
      NonNullVariableNames(variableDefinitions[..n])
      + (if NonNullWrapper in WrappersOf(variableDefinitions[n].typeRef) then [variableDefinitions[n].name] else [])
  }

  /**
   * The request type extracted from an operation's variable definitions
   * requires exactly the variables declared non-null, in declaration order.
   */
  lemma {:induction false} RequiredVariablesOfRequest(variableDefinitions: seq<VariableDef>, context: Context, fuel: nat)
    requires ExtractInputType(variableDefinitions, context, fuel).Success?
    ensures RequiredNames(ExtractInputType(variableDefinitions, context, fuel).value.fields)
         == NonNullVariableNames(variableDefinitions)
  {
    var fields := ExtractInputType(variableDefinitions, context, fuel).value.fields;
    RequiredNamesMatch(fields, variableDefinitions);
  }

  lemma {:induction false} RequiredNamesMatch(fields: seq<GQLField>, variableDefinitions: seq<VariableDef>)
    requires |fields| == |variableDefinitions|
    requires forall i :: 0 <= i < |fields| ==>
               fields[i].name == variableDefinitions[i].name &&
               (fields[i].isNonNull <==> NonNullWrapper in WrappersOf(variableDefinitions[i].typeRef))
    ensures RequiredNames(fields) == NonNullVariableNames(variableDefinitions)
    decreases |fields|
  {
    if fields != [] {
      var n := |fields| - 1;
      RequiredNamesMatch(fields[..n], variableDefinitions[..n]);
    }
  }

  /** The lower-cased dash-separated segments of a name. */
  function LowerSegments(name: string): (r: seq<string>)
    ensures |r| == |Split(ToDashedName(name), '-')|
    ensures forall i :: 0 <= i < |r| ==> r[i] == LowerString(Split(ToDashedName(name), '-')[i])
  {
    var segments := Split(ToDashedName(name), '-');
    seq(|segments|, i requires 0 <= i < |segments| => LowerString(segments[i]))
  }

  /** A request held in a variable whose name has a `lazy` segment is a lazy query. */
  predicate IsLazyQuery(gqlVariableName: string)
  {
    "lazy" in LowerSegments(gqlVariableName)
  }

  /** A name that starts with the word `lazy` holds a lazy query (`lazyUsersQuery`). */
  lemma LazyPrefixMakesLazy(rest: string)
    requires rest == [] || IsUpper(rest[0])
    ensures IsLazyQuery("lazy" + rest)
  {
    var name := "lazy" + rest;
    assert name[1..] == "azy" + rest;
    DashCapitalsAppend("azy", rest);
    DashCapitalsOfLower("azy");
    assert ToDashedName(name) == "lazy" + DashCapitals(rest);
    LazyFirstSegment(DashCapitals(rest));
    DashedNameOfWord("lazy");
    assert LowerSegments(name)[0] == "lazy";
  }

  /** A name with a `Lazy` word after its first word holds a lazy query (`usersLazyQuery`). */
  lemma LazyWordMakesLazy(before: string, rest: string)
    requires before != []
    requires rest == [] || IsUpper(rest[0])
    ensures IsLazyQuery(before + "Lazy" + rest)
  {
    var name := before + "Lazy" + rest;
    var head := ToDashedName(before);
    var tail := "lazy" + DashCapitals(rest);
    assert "Lazy" == ['L'] + "azy" && "lazy" == [Lower('L')] + "azy";
    DashedNameBeforeWord(before, 'L', "azy", rest);
    SplitAppend(head, tail, '-');
    LazyFirstSegment(DashCapitals(rest));
    DashedNameOfWord("lazy");
    assert LowerSegments(name)[|Split(head, '-')|] == "lazy";
  }

  /** The dashed pieces of a name stop at the end of a leading `lazy`. */
  lemma LazyFirstSegment(tail: string)
    requires tail == [] || tail[0] == '-'
    ensures Split("lazy" + tail, '-')[0] == "lazy"
  {
    if tail == [] {
      assert "lazy" + tail == "lazy";
      SplitNoSeparator("lazy", '-');
    } else {
      assert "lazy" + tail == "lazy" + ['-'] + tail[1..];
      SplitAfterPiece("lazy", tail[1..], '-');
    }
  }

  /** A single lower-case word holds a lazy query only when it is `lazy` itself (not `lazyish`). */
  lemma LazyOnlyAsWholeWord(name: string)
    requires forall i :: 0 <= i < |name| ==> !IsUpper(name[i]) && name[i] != '-'
    ensures IsLazyQuery(name) <==> name == "lazy"
  {
    DashedNameOfWord(name);
    SplitNoSeparator(name, '-');
    assert LowerSegments(name) == [name];
  }

  datatype HookNames = HookNames(hookName: string, reactHookName: string, optionsName: string, responseType: string)

  /** The names `generateHookForOperation` derives from the operation. */
  function NamesFor(operation: OperationKind, uniqueName: string, isLazyQuery: bool): HookNames
  {
    var keyword := OperationKeyword(operation);
    var lazy := operation == Query && isLazyQuery;
    HookNames(
      ToCamelCase("use-" + uniqueName + "-" + keyword),
      if lazy then "useLazyQuery" else ToCamelCase("use-" + keyword),
      if lazy then "LazyQueryHookOptions" else ToClassName(keyword + "-HookOptions"),
      ToClassName(keyword + "-type"))
  }

  /**
   * The hook is `use` + the class-cased name and operation; the react hook is
   * `useLazyQuery` for a lazy query and `use` + the class-cased operation otherwise.
   */
  lemma HookNamesShape(operation: OperationKind, uniqueName: string, isLazyQuery: bool)
    ensures var names := NamesFor(operation, uniqueName, isLazyQuery);
            var keyword := OperationKeyword(operation);
            && names.hookName == "use" + ToClassName(uniqueName + "-" + keyword)
            && names.reactHookName ==
                 if operation == Query && isLazyQuery then "useLazyQuery" else "use" + ToClassName(keyword)
  {
    var keyword := OperationKeyword(operation);
    assert "use-" + uniqueName + "-" + keyword == "use" + "-" + (uniqueName + "-" + keyword);
    CamelCaseOfPrefixed("use", uniqueName + "-" + keyword);
    assert "use-" + keyword == "use" + "-" + keyword;
    CamelCaseOfPrefixed("use", keyword);
  }

  // ---------------------------------------------------------------- one operation

  /**
   * The declaration for one extracted type: an interface for an interface
   * with fields (the request of a query allowing `undefined`), an enum for an
   * enum, nothing otherwise.
   */
  function DeclarationFor(dataType: GQLType, operation: OperationKind): (r: Option<Statement>)
    requires Flat(dataType)
    ensures r.Some? ==> (r.value.InterfaceDeclaration? || r.value.EnumDeclaration?) && r.value.name == dataType.name
    ensures r.Some? <==> (dataType.kind == INTERFACE && |dataType.fields| > 0) || dataType.kind == ENUM
  {
    if dataType.kind == INTERFACE && |dataType.fields| > 0 then
      Some(CreateInterface(dataType, None, dataType.name == "RequestType" && operation == Query))
    else if dataType.kind == ENUM then Some(CreateEnum(dataType))
    else None
  }

  function Declarations(dataTypes: seq<GQLType>, operation: OperationKind): (r: seq<Statement>)
    requires forall i :: 0 <= i < |dataTypes| ==> Flat(dataTypes[i])
    ensures |r| <= |dataTypes|
    decreases |dataTypes|
  {
    if dataTypes == [] then []
    else
      var n := |dataTypes| - 1;
      var d := DeclarationFor(dataTypes[n], operation);
      Declarations(dataTypes[..n], operation) + (if d.Some? then [d.value] else [])
  }

  /** Every interface with fields and every enum is declared, under its own name. */
  lemma {:induction false} DeclarationsCover(dataTypes: seq<GQLType>, operation: OperationKind, i: nat)
    requires forall j :: 0 <= j < |dataTypes| ==> Flat(dataTypes[j])
    requires i < |dataTypes| && DeclarationFor(dataTypes[i], operation).Some?
    ensures DeclarationFor(dataTypes[i], operation).value in Declarations(dataTypes, operation)
    decreases |dataTypes|
  {
    var n := |dataTypes| - 1;
    if i < n {
      assert dataTypes[..n][i] == dataTypes[i];
      DeclarationsCover(dataTypes[..n], operation, i);
    }
  }

  /** The hook declaration for the operation, by kind. */
  function HookFor(operation: OperationKind, names: HookNames, gqlVariableName: string, isLazyQuery: bool,
                   dataTypes: seq<GQLType>): Statement
  {
    match operation
    case Query =>
      CreateQueryHook(QueryHookInput(names.hookName, names.responseType, names.reactHookName, gqlVariableName,
        isLazyQuery, Some(FindRequiredRequestVariables(dataTypes)), HasRequestVariables(dataTypes),
        IsRequestOptional(dataTypes)))
    case Mutation =>
      CreateMutationHook(HookInput(names.hookName, names.responseType, names.reactHookName, gqlVariableName,
        HasRequestVariables(dataTypes)))
    case Subscription =>
      CreateSubscriptionHook(HookInput(names.hookName, names.responseType, names.reactHookName, gqlVariableName,
        HasRequestVariables(dataTypes)))
  }

  datatype OperationHook = OperationHook(statements: seq<Statement>, imported: seq<string>)

  /**
   * `generateHookForOperation` without its effect: the declarations of the
   * extracted types followed by the hook, and the names it imports (the
   * options type, then the react hook). Other definitions give nothing.
   */
  function HookForOperation(schema: Schema, def: Definition, gqlVariableName: string, fuel: nat): (r: Result<OperationHook>)
    ensures !def.OperationDef? ==> r == Success(OperationHook([], []))
    ensures def.OperationDef? && r.Success? ==>
              |r.value.statements| >= 1 && r.value.statements[|r.value.statements| - 1].FunctionDeclaration? &&
              |r.value.imported| == 2
    ensures def.OperationDef? ==> (r.Success? <==> ExtractedTypes(schema, def, fuel).Success?)
  {
    if !def.OperationDef? then Success(OperationHook([], []))
    else
      match ExtractedTypes(schema, def, fuel)
      case Failure(e) => Failure(e)
      case Success(dataTypes) =>
        var isLazyQuery := IsLazyQuery(gqlVariableName);
        var names := NamesFor(def.operation, GenerateUniqueName(def.selections), isLazyQuery);
        Success(OperationHookOf(def.operation, names, isLazyQuery, gqlVariableName, dataTypes))
  }

  /** The declarations of the extracted types, the hook last, and the options type and react hook it imports. */
  function OperationHookOf(operation: OperationKind, names: HookNames, isLazyQuery: bool, gqlVariableName: string,
                           dataTypes: seq<GQLType>): (r: OperationHook)
    requires forall i :: 0 <= i < |dataTypes| ==> Flat(dataTypes[i])
    ensures |r.statements| >= 1 && r.statements[|r.statements| - 1].FunctionDeclaration? && |r.imported| == 2
  {
    var hook := HookFor(operation, names, gqlVariableName, isLazyQuery, dataTypes);
    OperationHook(Declarations(dataTypes, operation) + [hook], [names.optionsName, names.reactHookName])
  }

  /** Only queries are guarded, and only by the request's non-null variables. */
  lemma OnlyQueriesSkip(operation: OperationKind, names: HookNames, gqlVariableName: string, isLazyQuery: bool,
                        dataTypes: seq<GQLType>)
    ensures var call := HookFor(operation, names, gqlVariableName, isLazyQuery, dataTypes).returned;
            && (operation != Query ==> call.arguments == [Ident(gqlVariableName), Ident("options")])
            && (operation == Query && HasRequestVariables(dataTypes) && !isLazyQuery &&
                FindRequiredRequestVariables(dataTypes) != [] ==>
                  call.arguments[1].properties[1] == CreateSkip(FindRequiredRequestVariables(dataTypes)).value)
            && (operation == Query && HasRequestVariables(dataTypes) &&
                (isLazyQuery || FindRequiredRequestVariables(dataTypes) == []) ==>
                  call.arguments[1].ObjectLiteral? &&
                  forall p :: p in call.arguments[1].properties ==> !p.PropertyAssignment? || p.name != "skip")
  {
    var required := FindRequiredRequestVariables(dataTypes);
    if operation == Query {
      var h := QueryHookInput(names.hookName, names.responseType, names.reactHookName, gqlVariableName,
        isLazyQuery, Some(required), HasRequestVariables(dataTypes), IsRequestOptional(dataTypes));
      assert HookFor(operation, names, gqlVariableName, isLazyQuery, dataTypes) == CreateQueryHook(h);
      assert SkipsWhenIncomplete(h) <==> !isLazyQuery && required != [];
      if h.hasVariables && !SkipsWhenIncomplete(h) {
        UnguardedQueryHasNoSkip(h);
      }
    }
  }

  /** Without a skip guard, the query's options object names no `skip` property. */
  lemma UnguardedQueryHasNoSkip(h: QueryHookInput)
    requires h.hasVariables && !SkipsWhenIncomplete(h)
    ensures var call := CreateQueryHook(h).returned.arguments[1];
            call.ObjectLiteral? && forall p :: p in call.properties ==> !p.PropertyAssignment? || p.name != "skip"
  {
    var properties := CreateQueryHook(h).returned.arguments[1].properties;
    assert properties == [PropertyAssignment("variables", Ident("request")), SpreadAssignment(Ident("options"))];
  }

  // ---------------------------------------------------------------- imports

  /** The names imported from a module so far. */
  function ImportsOf(imports: seq<(string, seq<string>)>, moduleName: string): seq<string>
  {
    if moduleName in Keys(imports) then imports[FirstIndex(Keys(imports), moduleName)].1 else []
  }

  /** `(imports[m] ?? (imports[m] = [])).push(...names)`: a new module goes last, a known one grows in place. */
  function AddImports(imports: seq<(string, seq<string>)>, moduleName: string, names: seq<string>): (r: seq<(string, seq<string>)>)
    ensures Keys(r) == if moduleName in Keys(imports) then Keys(imports) else Keys(imports) + [moduleName]
  {
    if moduleName in Keys(imports) then
      var p := FirstIndex(Keys(imports), moduleName);
      imports[p := (moduleName, imports[p].1 + names)]
    else imports + [(moduleName, names)]
  }

  /** Adding imports keeps one entry per module, appends to that module's names and leaves every other module alone. */
  lemma AddImportsSpec(imports: seq<(string, seq<string>)>, moduleName: string, names: seq<string>, other: string)
    requires Distinct(Keys(imports)) && other != moduleName
    ensures var r := AddImports(imports, moduleName, names);
            && Distinct(Keys(r))
            && ImportsOf(r, moduleName) == ImportsOf(imports, moduleName) + names
            && ImportsOf(r, other) == ImportsOf(imports, other)
  {
    if moduleName in Keys(imports) {
      AddToKnownModule(imports, moduleName, names, other);
    } else {
      AddNewModule(imports, moduleName, names, other);
    }
  }

  lemma AddToKnownModule(imports: seq<(string, seq<string>)>, moduleName: string, names: seq<string>, other: string)
    requires Distinct(Keys(imports)) && other != moduleName && moduleName in Keys(imports)
    ensures var r := AddImports(imports, moduleName, names);
            && ImportsOf(r, moduleName) == ImportsOf(imports, moduleName) + names
            && ImportsOf(r, other) == ImportsOf(imports, other)
  {
    var r := AddImports(imports, moduleName, names);
    var ks := Keys(imports);
    var p := FirstIndex(ks, moduleName);
    assert Keys(r) == ks;
    FirstIndexUnique(Keys(r), moduleName, p);
    if other in ks {
      var q := FirstIndex(ks, other);
      FirstIndexUnique(Keys(r), other, q);
    }
  }

  lemma AddNewModule(imports: seq<(string, seq<string>)>, moduleName: string, names: seq<string>, other: string)
    requires Distinct(Keys(imports)) && other != moduleName && moduleName !in Keys(imports)
    ensures var r := AddImports(imports, moduleName, names);
            && ImportsOf(r, moduleName) == ImportsOf(imports, moduleName) + names
            && ImportsOf(r, other) == ImportsOf(imports, other)
  {
    var r := AddImports(imports, moduleName, names);
    var ks := Keys(imports);
    FirstIndexUnique(Keys(r), moduleName, |imports|);
    if other in ks {
      var q := FirstIndex(ks, other);
      assert Keys(r)[..q] == ks[..q];
      FirstIndexUnique(Keys(r), other, q);
    }
  }

  /** `const hooks = ['useQuery', 'useMutation', 'useSubscription']` */
  const Hooks: seq<string> := ["useQuery", "useMutation", "useSubscription"]

  /** The first child of the given kind. */
  function ChildOfKind(node: TSNode, kind: SyntaxKind): (r: Option<TSNode>)
    ensures r.Some? ==> r.value in node.children && r.value.kind == kind
  {
    match FindIndex(node.children, (c: TSNode) => c.kind == kind)
    case None => None
    case Some(i) => Some(node.children[i])
  }

  /**
   * The imported name of an import specifier (children: the optional
   * `propertyName` and then `name`): its last child, when that is an identifier.
   */
  function SpecifierName(specifier: TSNode): Option<string>
  {
    if specifier.children != [] && specifier.children[|specifier.children| - 1].kind == Identifier then
      Some(specifier.children[|specifier.children| - 1].text)
    else
      None
  }

  /**
   * An import declaration (children: its import clause and then its module
   * specifier) whose named imports (the clause's `NamedImports` child) hold a
   * specifier whose name is one of the react hooks.
   */
  predicate ImportsAHook(statement: TSNode)
  {
    && statement.kind == ImportDeclaration
    && var clause := ChildOfKind(statement, ImportClause);
       && clause.Some?
       && var bindings := ChildOfKind(clause.value, NamedImports);
          && bindings.Some?
          && exists i :: 0 <= i < |bindings.value.children| && SpecifierNamesAHook(bindings.value.children[i])
  }

  /** `hooks.includes(e.name.escapedText ?? '')`. */
  predicate SpecifierNamesAHook(specifier: TSNode)
  {
    var name := SpecifierName(specifier);
    name.Some? && name.value in Hooks
  }

  /** The module specifier: the last child of an import declaration. */
  function ModuleSpecifierOf(statement: TSNode): Option<TSNode>
  {
    if statement.children == [] then None else Some(statement.children[|statement.children| - 1])
  }

  /**
   * `identifyLibrary`: the module of the first top-level import that brings
   * in `useQuery`, `useMutation` or `useSubscription`, when that module is a
   * string literal.
   */
  function IdentifyLibrary(sourceFile: TSNode): Option<string>
  {
    match FindIndex(sourceFile.children, ImportsAHook)
    case None => None
    case Some(i) =>
      var specifier := ModuleSpecifierOf(sourceFile.children[i]);
      if specifier.Some? && specifier.value.kind == StringLiteral then Some(specifier.value.text) else None
  }

  /**
   * Without an import of a react hook there is no library; a library found is
   * the string-literal module of the first such import.
   */
  lemma IdentifyLibrarySpec(sourceFile: TSNode)
    ensures (forall i :: 0 <= i < |sourceFile.children| ==> !ImportsAHook(sourceFile.children[i])) ==>
              IdentifyLibrary(sourceFile).None?
    ensures IdentifyLibrary(sourceFile).Some? ==>
              exists i :: 0 <= i < |sourceFile.children| && ImportsAHook(sourceFile.children[i]) &&
                (forall j :: 0 <= j < i ==> !ImportsAHook(sourceFile.children[j])) &&
                ModuleSpecifierOf(sourceFile.children[i]).Some? &&
                ModuleSpecifierOf(sourceFile.children[i]).value.kind == StringLiteral &&
                ModuleSpecifierOf(sourceFile.children[i]).value.text == IdentifyLibrary(sourceFile).value
  {
    var found := FindIndex(sourceFile.children, ImportsAHook);
    if found.Some? {
      var i := found.value;
      assert ImportsAHook(sourceFile.children[i]);
      assert forall j :: 0 <= j < i ==> !ImportsAHook(sourceFile.children[j]);
    }
  }

  /** `import { useQuery } from '@apollo/client'` identifies the Apollo client package. */
  lemma IdentifiesApolloImport()
    ensures IdentifyLibrary(TSNode(OtherKind(0), "", [ImportOf("useQuery", "@apollo/client")])) == Some("@apollo/client")
  {
    var statement := ImportOf("useQuery", "@apollo/client");
    ImportOfHook("useQuery", "@apollo/client");
    assert FindIndex([statement], ImportsAHook) == Some(0);
  }

  /** `import { <name> } from '<module>'`. */
  function ImportOf(name: string, moduleName: string): TSNode
  {
    var specifier := TSNode(ImportSpecifier, "", [TSNode(Identifier, name, [])]);
    var clause := TSNode(ImportClause, "", [TSNode(NamedImports, "", [specifier])]);
    TSNode(ImportDeclaration, "", [clause, TSNode(StringLiteral, moduleName, [])])
  }

  /** A single named import imports a hook exactly when the name is one of them. */
  lemma ImportOfHook(name: string, moduleName: string)
    ensures ImportsAHook(ImportOf(name, moduleName)) <==> name in Hooks
  {
    var statement := ImportOf(name, moduleName);
    var clause := statement.children[0];
    var bindings := clause.children[0];
    assert ChildOfKind(statement, ImportClause) == Some(clause);
    assert ChildOfKind(clause, NamedImports) == Some(bindings);
    assert SpecifierName(bindings.children[0]) == Some(name);
  }

  /** An import of other names from the same module identifies nothing. */
  lemma IgnoresOtherImports()
    ensures IdentifyLibrary(TSNode(OtherKind(0), "", [ImportOf("gql", "@apollo/client")])).None?
  {
    ImportOfHook("gql", "@apollo/client");
  }

  // ---------------------------------------------------------------- the request in the source file

  /** The initializer of a variable declaration: its children are its name and then, when it has one, its initializer. */
  function InitializerOf(declaration: TSNode): Option<TSNode>
  {
    if |declaration.children| >= 2 then Some(declaration.children[|declaration.children| - 1]) else None
  }

  /** A tagged template's children are its tag and then its template. */
  function TagOf(tagged: TSNode): Option<TSNode>
  {
    if |tagged.children| >= 1 then Some(tagged.children[0]) else None
  }

  function TemplateOf(tagged: TSNode): Option<TSNode>
  {
    if |tagged.children| >= 2 then Some(tagged.children[1]) else None
  }

  /** A variable initialised with a `gql`-tagged template or with a plain template literal. */
  predicate IsGQLDeclaration(node: TSNode)
  {
    && node.kind == VariableDeclaration
    && InitializerOf(node).Some?
    && var init := InitializerOf(node).value;
       || (init.kind == TaggedTemplateExpression && TagOf(init).Some? &&
           TagOf(init).value.kind == Identifier && TagOf(init).value.text == "gql")
       || init.kind == NoSubstitutionTemplateLiteral
  }

  /** The request text held by a declaration, empty when it has none. */
  function RequestText(declaration: TSNode): string
  {
    match InitializerOf(declaration)
    case None => ""
    case Some(init) =>
      if init.kind == TaggedTemplateExpression && TemplateOf(init).Some? &&
         TemplateOf(init).value.kind == NoSubstitutionTemplateLiteral then TemplateOf(init).value.text
      else if init.kind == NoSubstitutionTemplateLiteral then init.text
      else ""
  }

  const NoRequestMessage: string :=
    "Could not identify GraphQL query or mutation from the content! Make sure you have defined it in the format:\n"
    + "  const query = `\n    query {\n      <your content>\n    }\n  `\n"

  datatype GQLRequest = GQLRequest(gql: string, variable: string)

  /**
   * `extractGQL`: the first declaration below the source file holding a
   * request; its template text and, when its name is an identifier, the
   * variable name. No such declaration, or an empty request, is an error.
   */
  function ExtractedGQL(sourceFile: TSNode): (r: Result<GQLRequest>)
    ensures r.Failure? ==> r.error == NoRequestMessage
    ensures r.Success? ==>
              var declaration := Selected(Some(sourceFile), [NodePredicate(IsGQLDeclaration)]);
              && declaration.Some? && Below(declaration.value, sourceFile)
              && r.value.gql == RequestText(declaration.value) && r.value.gql != ""
  {
    var declaration := Selected(Some(sourceFile), [NodePredicate(IsGQLDeclaration)]);
    if declaration.None? || RequestText(declaration.value) == "" then Failure(NoRequestMessage)
    else
      var name := declaration.value.children[0];
      Success(GQLRequest(RequestText(declaration.value), if name.kind == Identifier then name.text else ""))
  }

  /** The declaration found is the first request declaration in visit order. */
  lemma ExtractedGQLIsFirst(sourceFile: TSNode)
    requires ExtractedGQL(sourceFile).Success?
    ensures var declaration := Selected(Some(sourceFile), [NodePredicate(IsGQLDeclaration)]).value;
            declaration == FirstOf(Visits(sourceFile, 0), AsNodeFilter(NodePredicate(IsGQLDeclaration))).value
  {
  }

  method ExtractGQL(sourceFile: TSNode) returns (r: Result<GQLRequest>)
    ensures r == ExtractedGQL(sourceFile)
  {
    var declaration := SelectTSNode(Some(sourceFile), [NodePredicate(IsGQLDeclaration)]);
    if declaration.None? || RequestText(declaration.value) == "" {
      return Failure(NoRequestMessage);
    }
    var name := declaration.value.children[0];
    r := Success(GQLRequest(RequestText(declaration.value), if name.kind == Identifier then name.text else ""));
  }

  // ---------------------------------------------------------------- the generator's context

  /** The `context` of `generateGQLHook`: imports gathered so far, by module, and the module the hooks come from. */
  class HookContext {
    var imports: seq<(string, seq<string>)>
    const packageName: string

    constructor (packageName: string)
      ensures imports == [] && this.packageName == packageName
    {
      imports := [];
      this.packageName := packageName;
    }

    /**
     * `generateHookForOperation`: the declarations and the hook for one
     * definition; for an operation whose types could be extracted, the
     * options type and the react hook are pushed onto the package's imports.
     */
    method GenerateHookForOperation(schema: Schema, def: Definition, gqlVariableName: string, fuel: nat)
      returns (r: Result<seq<Statement>>)
      modifies this
      ensures var spec := HookForOperation(schema, def, gqlVariableName, fuel);
              && (r.Success? <==> spec.Success?)
              && (r.Success? ==> r.value == spec.value.statements)
              && (r.Failure? ==> r.error == spec.error)
              && imports == if def.OperationDef? && spec.Success? then AddImports(old(imports), packageName, spec.value.imported)
                            else old(imports)
    {
      if !def.OperationDef? {
        return Success([]);
      }
      var isLazyQuery := IsLazyQuery(gqlVariableName);
      var names := NamesFor(def.operation, GenerateUniqueName(def.selections), isLazyQuery);
      var dataTypes := ExtractGQLTypes(schema, def, fuel);
      if dataTypes.Failure? {
        return Failure(dataTypes.error);
      }
      var statements := Declarations(dataTypes.value, def.operation);
      var hook := HookFor(def.operation, names, gqlVariableName, isLazyQuery, dataTypes.value);
      assert HookForOperation(schema, def, gqlVariableName, fuel)
          == Success(OperationHook(statements + [hook], [names.optionsName, names.reactHookName]));
      ghost var before := imports;
      imports := AddImports(imports, packageName, [names.optionsName]);
      imports := AddImports(imports, packageName, [names.reactHookName]);
      AddImportsTwice(before, packageName, names.optionsName, names.reactHookName);
      r := Success(statements + [hook]);
    }
  }

  /** Two pushes onto one module's imports add both names to it, in order. */
  lemma AddImportsTwice(imports: seq<(string, seq<string>)>, moduleName: string, first: string, second: string)
    ensures AddImports(AddImports(imports, moduleName, [first]), moduleName, [second])
         == AddImports(imports, moduleName, [first, second])
  {
    var ks := Keys(imports);
    var once := AddImports(imports, moduleName, [first]);
    if moduleName in ks {
      var p := FirstIndex(ks, moduleName);
      assert Keys(once) == ks;
      assert (imports[p].1 + [first]) + [second] == imports[p].1 + [first, second];
    } else {
      assert Keys(once) == ks + [moduleName];
      FirstIndexUnique(ks + [moduleName], moduleName, |imports|);
      assert [first] + [second] == [first, second];
      assert once[|imports| := (moduleName, once[|imports|].1 + [second])] == imports + [(moduleName, [first, second])];
    }
  }

  /**
   * Every definition in turn, with one shared context: the statements in
   * definition order and the imports gathered along the way.
   */
  function HooksForDocument(schema: Schema, defs: seq<Definition>, gqlVariableName: string, packageName: string,
                            fuel: nat): Result<(seq<Statement>, seq<(string, seq<string>)>)>
    decreases |defs|
  {
    if defs == [] then Success(([], []))
    else
      var n := |defs| - 1;
      match HooksForDocument(schema, defs[..n], gqlVariableName, packageName, fuel)
      case Failure(e) => Failure(e)
      case Success((statements, imports)) =>
        match HookForOperation(schema, defs[n], gqlVariableName, fuel)
        case Failure(e) => Failure(e)
        case Success(hook) =>
          Success((statements + hook.statements,
                   if defs[n].OperationDef? then AddImports(imports, packageName, hook.imported) else imports))
  }

  /** The gathered imports hold one entry per module, and at most one module: the package the hooks come from. */
  lemma {:induction false} DocumentImportsOnePackage(schema: Schema, defs: seq<Definition>, gqlVariableName: string,
                                                     packageName: string, fuel: nat)
    requires HooksForDocument(schema, defs, gqlVariableName, packageName, fuel).Success?
    ensures var imports := HooksForDocument(schema, defs, gqlVariableName, packageName, fuel).value.1;
            Keys(imports) == [] || Keys(imports) == [packageName]
    decreases |defs|
  {
    if defs != [] {
      var n := |defs| - 1;
      DocumentImportsOnePackage(schema, defs[..n], gqlVariableName, packageName, fuel);
    }
  }

  /** The module specifier of an import statement. */
  function SpecifierOf(statement: Statement): string
  {
    if statement.DefaultImport? || statement.NamedImport? then statement.moduleSpecifier else ""
  }

  /** Code-unit order on strings, standing for `localeCompare`. */
  predicate StringLessEq(a: string, b: string)
  {
    a == [] || (b != [] && (a[0] < b[0] || (a[0] == b[0] && StringLessEq(a[1..], b[1..]))))
  }

  lemma {:induction false} StringLessEqTotal(a: string, b: string)
    ensures StringLessEq(a, b) || StringLessEq(b, a)
  {
    if a != [] && b != [] && a[0] == b[0] {
      StringLessEqTotal(a[1..], b[1..]);
    }
  }

  lemma {:induction false} StringLessEqTransitive(a: string, b: string, c: string)
    requires StringLessEq(a, b) && StringLessEq(b, c)
    ensures StringLessEq(a, c)
  {
    if a != [] && b != [] && c != [] && a[0] == b[0] && b[0] == c[0] {
      StringLessEqTransitive(a[1..], b[1..], c[1..]);
    }
  }

  predicate SortedBySpecifier(statements: seq<Statement>)
  {
    forall i, j :: 0 <= i < j < |statements| ==> StringLessEq(SpecifierOf(statements[i]), SpecifierOf(statements[j]))
  }

  /** Insert after every statement whose module does not come later. */
  function InsertBySpecifier(x: Statement, sorted: seq<Statement>): (r: seq<Statement>)
    requires SortedBySpecifier(sorted)
    ensures SortedBySpecifier(r)
    ensures multiset(r) == multiset(sorted) + multiset{x}
    decreases |sorted|
  {
    if sorted == [] then [x]
    else
      var n := |sorted| - 1;
      if StringLessEq(SpecifierOf(sorted[n]), SpecifierOf(x)) then
        AppendKeepsSorted(x, sorted);
        sorted + [x]
      else
        var front := InsertBySpecifier(x, sorted[..n]);
        InsertBeforeLastKeepsSorted(x, sorted, front);
        front + [sorted[n]]
  }

  /** A statement whose module comes no earlier than the last one's may go at the end. */
  lemma AppendKeepsSorted(x: Statement, sorted: seq<Statement>)
    requires SortedBySpecifier(sorted) && sorted != []
    requires StringLessEq(SpecifierOf(sorted[|sorted| - 1]), SpecifierOf(x))
    ensures SortedBySpecifier(sorted + [x])
  {
    var n := |sorted| - 1;
    forall i | 0 <= i < n ensures StringLessEq(SpecifierOf(sorted[i]), SpecifierOf(x)) {
      StringLessEqTransitive(SpecifierOf(sorted[i]), SpecifierOf(sorted[n]), SpecifierOf(x));
    }
  }

  /** Otherwise the last statement stays last, after the insertion into the rest. */
  lemma InsertBeforeLastKeepsSorted(x: Statement, sorted: seq<Statement>, front: seq<Statement>)
    requires SortedBySpecifier(sorted) && sorted != []
    requires !StringLessEq(SpecifierOf(sorted[|sorted| - 1]), SpecifierOf(x))
    requires SortedBySpecifier(front)
    requires multiset(front) == multiset(sorted[..|sorted| - 1]) + multiset{x}
    ensures SortedBySpecifier(front + [sorted[|sorted| - 1]])
    ensures multiset(front + [sorted[|sorted| - 1]]) == multiset(sorted) + multiset{x}
  {
    var n := |sorted| - 1;
    var last := sorted[n];
    assert sorted == sorted[..n] + [last];
    StringLessEqTotal(SpecifierOf(last), SpecifierOf(x));
    forall i | 0 <= i < |front| ensures StringLessEq(SpecifierOf(front[i]), SpecifierOf(last)) {
      assert front[i] in multiset(sorted[..n]) + multiset{x};
      if front[i] != x {
        assert front[i] in sorted[..n];
      }
    }
  }

  /** `statements.sort(sortImportsByFilename)`: ordered by module specifier, the same statements. */
  function SortImports(statements: seq<Statement>): (r: seq<Statement>)
    ensures SortedBySpecifier(r)
    ensures multiset(r) == multiset(statements)
    decreases |statements|
  {
    if statements == [] then []
    else
      var n := |statements| - 1;
      assert statements == statements[..n] + [statements[n]];
      InsertBySpecifier(statements[n], SortImports(statements[..n]))
  }

  /** The import block: `import gql from 'graphql-tag'` and the named imports, sorted by module. */
  function ImportStatements(imports: seq<(string, seq<string>)>): seq<Statement>
  {
    SortImports([DefaultImport("gql", "graphql-tag")] + CreateNamedImports(imports))
  }

  datatype GeneratedFile = GeneratedFile(
    imports: seq<Statement>,
    request: seq<Definition>,
    variable: string,
    statements: seq<Statement>)

  /**
   * `generateGQLHook` up to printing: the request found in the file,
   * completed against the schema, and the hooks and imports generated for
   * it. `parse` stands for the GraphQL parser; the printed request is taken
   * to parse back to the completed definitions.
   */
  function GeneratedGQLHook(schema: Schema, sourceFile: TSNode, parse: string -> Result<seq<Definition>>,
                            defaultPackage: string, fuel: nat): Result<GeneratedFile>
  {
    match ExtractedGQL(sourceFile)
    case Failure(e) => Failure(e)
    case Success(request) =>
      match parse(request.gql)
      case Failure(e) => Failure(e)
      case Success(defs) =>
        match CompletedDocument(schema, defs)
        case Failure(e) => Failure(e)
        case Success(fixed) =>
          var library := IdentifyLibrary(sourceFile);
          var packageName := if library.Some? then library.value else defaultPackage;
          match HooksForDocument(schema, fixed, request.variable, packageName, fuel)
          case Failure(e) => Failure(e)
          case Success((statements, imports)) =>
            Success(GeneratedFile(ImportStatements(imports), fixed, request.variable, statements))
  }

  /** The import block is sorted and always imports `gql` from `graphql-tag`. */
  lemma GeneratedImportsSorted(schema: Schema, sourceFile: TSNode, parse: string -> Result<seq<Definition>>,
                               defaultPackage: string, fuel: nat)
    requires GeneratedGQLHook(schema, sourceFile, parse, defaultPackage, fuel).Success?
    ensures var imports := GeneratedGQLHook(schema, sourceFile, parse, defaultPackage, fuel).value.imports;
            SortedBySpecifier(imports) && DefaultImport("gql", "graphql-tag") in imports
  {
    var request := ExtractedGQL(sourceFile).value;
    var fixed := CompletedDocument(schema, parse(request.gql).value).value;
    var library := IdentifyLibrary(sourceFile);
    var packageName := if library.Some? then library.value else defaultPackage;
    var hooks := HooksForDocument(schema, fixed, request.variable, packageName, fuel).value;
    ImportStatementsSorted(hooks.1);
  }

  lemma ImportStatementsSorted(imports: seq<(string, seq<string>)>)
    ensures SortedBySpecifier(ImportStatements(imports)) && DefaultImport("gql", "graphql-tag") in ImportStatements(imports)
  {
    assert DefaultImport("gql", "graphql-tag") in multiset(ImportStatements(imports));
  }

  /** `generateGQLHook`: extract, parse, complete, then generate every definition's hook and the import block. */
  method GenerateGQLHook(schema: Schema, sourceFile: TSNode, parse: string -> Result<seq<Definition>>,
                         defaultPackage: string, fuel: nat) returns (r: Result<GeneratedFile>)
    ensures r == GeneratedGQLHook(schema, sourceFile, parse, defaultPackage, fuel)
  {
    var request := ExtractGQL(sourceFile);
    if request.Failure? {
      return Failure(request.error);
    }
    var defs := parse(request.value.gql);
    if defs.Failure? {
      return Failure(defs.error);
    }
    var fixed := FixGQLRequest(schema, defs.value);
    if fixed.Failure? {
      return Failure(fixed.error);
    }
    var library := IdentifyLibrary(sourceFile);
    var context := new HookContext(if library.Some? then library.value else defaultPackage);
    var statements := GenerateHooks(schema, fixed.value, request.value.variable, context, fuel);
    if statements.Failure? {
      return Failure(statements.error);
    }
    r := Success(GeneratedFile(ImportStatements(context.imports), fixed.value, request.value.variable, statements.value));
  }

  /** The loop of `generateGQLHook` over the completed definitions, all sharing one context. */
  method GenerateHooks(schema: Schema, definitions: seq<Definition>, gqlVariableName: string, context: HookContext,
                       fuel: nat) returns (r: Result<seq<Statement>>)
    requires context.imports == []
    modifies context
    ensures var spec := HooksForDocument(schema, definitions, gqlVariableName, context.packageName, fuel);
            && (r.Success? <==> spec.Success?)
            && (r.Success? ==> r.value == spec.value.0 && context.imports == spec.value.1)
            && (r.Failure? ==> r.error == spec.error)
  {
    var statements: seq<Statement> := [];
    var i := 0;
    assert definitions[..0] == [];
    while i < |definitions|
      invariant 0 <= i <= |definitions|
      invariant HooksForDocument(schema, definitions[..i], gqlVariableName, context.packageName, fuel)
                == Success((statements, context.imports))
    {
      ghost var imports := context.imports;
      var generated := context.GenerateHookForOperation(schema, definitions[i], gqlVariableName, fuel);
      HooksAdvance(schema, definitions, gqlVariableName, context.packageName, fuel, i, statements, imports,
                   generated, context.imports);
      if generated.Failure? {
        return Failure(generated.error);
      }
      statements := statements + generated.value;
      i := i + 1;
    }
    assert definitions[..i] == definitions;
    r := Success(statements);
  }

  /** One more definition: its hook's statements follow, and an operation's imports are added. */
  lemma HooksStep(schema: Schema, defs: seq<Definition>, gqlVariableName: string, packageName: string, fuel: nat,
                  i: nat, statements: seq<Statement>, imports: seq<(string, seq<string>)>)
    requires i < |defs|
    requires HooksForDocument(schema, defs[..i], gqlVariableName, packageName, fuel) == Success((statements, imports))
    ensures var hook := HookForOperation(schema, defs[i], gqlVariableName, fuel);
            HooksForDocument(schema, defs[..i + 1], gqlVariableName, packageName, fuel)
            == if hook.Failure? then Failure(hook.error)
               else Success((statements + hook.value.statements,
                             if defs[i].OperationDef? then AddImports(imports, packageName, hook.value.imported) else imports))
  {
    assert defs[..i + 1][..i] == defs[..i];
  }

  /**
   * What one turn of the loop in `GenerateHooks` leaves: with the hook of
   * definition `i` generated as `HookForOperation` says, either the first
   * `i + 1` definitions give the grown statements and imports, or the whole
   * document fails with that hook's error.
   */
  lemma HooksAdvance(schema: Schema, defs: seq<Definition>, gqlVariableName: string, packageName: string, fuel: nat,
                     i: nat, statements: seq<Statement>, imports: seq<(string, seq<string>)>,
                     generated: Result<seq<Statement>>, imports': seq<(string, seq<string>)>)
    requires i < |defs|
    requires HooksForDocument(schema, defs[..i], gqlVariableName, packageName, fuel) == Success((statements, imports))
    requires var spec := HookForOperation(schema, defs[i], gqlVariableName, fuel);
             && (generated.Success? <==> spec.Success?)
             && (generated.Success? ==> generated.value == spec.value.statements)
             && (generated.Failure? ==> generated.error == spec.error)
             && imports' == if defs[i].OperationDef? && spec.Success? then AddImports(imports, packageName, spec.value.imported)
                            else imports
    ensures generated.Success? ==>
              HooksForDocument(schema, defs[..i + 1], gqlVariableName, packageName, fuel)
              == Success((statements + generated.value, imports'))
    ensures generated.Failure? ==>
              HooksForDocument(schema, defs, gqlVariableName, packageName, fuel) == Failure(generated.error)
  {
    HooksStep(schema, defs, gqlVariableName, packageName, fuel, i, statements, imports);
    if generated.Failure? {
      FailureSpreads(schema, defs, gqlVariableName, packageName, fuel, i + 1);
    }
  }

  /** A definition that fails makes the whole document fail with its error. */
  lemma {:induction false} FailureSpreads(schema: Schema, defs: seq<Definition>, gqlVariableName: string,
                                          packageName: string, fuel: nat, k: nat)
    requires k <= |defs|
    requires HooksForDocument(schema, defs[..k], gqlVariableName, packageName, fuel).Failure?
    ensures HooksForDocument(schema, defs, gqlVariableName, packageName, fuel)
         == HooksForDocument(schema, defs[..k], gqlVariableName, packageName, fuel)
    decreases |defs| - k
  {
    if k < |defs| {
      var n := |defs| - 1;
      assert defs[..n][..k] == defs[..k];
      FailureSpreads(schema, defs[..n], gqlVariableName, packageName, fuel, k);
    } else {
      assert defs[..k] == defs;
    }
  }
}
