/**
 * The earlier hook generator, `src/generate-gql-hook.ts`. Every operation,
 * whatever its kind, gets one interface per extracted interface type and a
 * hook that takes a required `request: RequestType` and hands the react hook
 * a `skip` guard built from the request's non-null variables. The react
 * hook's name is recorded under `@apollo/react` in a context the caller
 * shares between operations. The types it reads are the extracted types of
 * the current generator (module ExtractTypes).
 */
module LegacyHook {
  import opened Wrappers
  import opened Names
  import opened GraphQL
  import opened ExtractTypes
  import opened TSUtil
  import opened Collections
  import opened GenerateHook

  /** The module every react hook is imported from. */
  const ApolloReact := "@apollo/react"

  // ---------------------------------------------------------------- skip guard

  /** `createSkip`: nothing for no required variables, otherwise the object literal `{ skip: !request.v1 || ... }`. */
  function CreateSkipObject(requiredVariables: seq<string>): (r: Option<Expr>)
    ensures r.None? <==> requiredVariables == []
    ensures r.Some? ==> r.value.ObjectLiteral? && |r.value.properties| == 1
  {
    match CreateSkip(requiredVariables)
    case None => None
    case Some(skip) => Some(ObjectLiteral([skip]))
  }

  /**
   * The object's only property is `skip`, and its guard holds exactly when
   * some required variable is missing (falsy) in the request.
   */
  lemma SkipObjectMeaning(requiredVariables: seq<string>, truthy: string -> bool)
    requires requiredVariables != []
    ensures var p := CreateSkipObject(requiredVariables).value.properties[0];
            && p.PropertyAssignment? && p.name == "skip"
            && (Skips(p.value, truthy) <==> exists i :: 0 <= i < |requiredVariables| && !truthy(requiredVariables[i]))
  {
    SkipMeaning(requiredVariables, truthy);
  }

  // ---------------------------------------------------------------- hook declaration

  datatype CreateHookInput = CreateHookInput(
    hookName: string,
    responseType: string,
    reactHookName: string,
    gqlVariableName: string,
    requiredRequestVariables: seq<string>)

  /**
   * `createHook`: `function <hookName>(request: RequestType)` returning
   * `<reactHookName><RequestType, <responseType>>(<gql>, request, <skip>)`,
   * the skip object left out when nothing is required.
   */
  function CreateHook(h: CreateHookInput): (r: Statement)
    ensures r.FunctionDeclaration? && r.name == h.hookName
    ensures r.parameters == [Parameter("request", false, Ref("RequestType"))]
    ensures r.returned.Call? && r.returned.callee == h.reactHookName
    ensures r.returned.typeArguments == [Ref("RequestType"), Ref(h.responseType)]
    ensures |r.returned.arguments| == if h.requiredRequestVariables == [] then 2 else 3
    ensures r.returned.arguments[0] == Ident(h.gqlVariableName) && r.returned.arguments[1] == Ident("request")
    ensures h.requiredRequestVariables != [] ==>
              r.returned.arguments[2] == CreateSkipObject(h.requiredRequestVariables).value
  {
    var skip := CreateSkipObject(h.requiredRequestVariables);
    var arguments := [Ident(h.gqlVariableName), Ident("request")] + (if skip.Some? then [skip.value] else []);
    FunctionDeclaration(h.hookName, [Parameter("request", false, Ref("RequestType"))],
      Call(h.reactHookName, [Ref("RequestType"), Ref(h.responseType)], arguments))
  }

  // ---------------------------------------------------------------- one operation

  /**
   * The statements mapped from the extracted types: an interface for every
   * interface type, the request's allowing `undefined`, and `undefined` for
   * every other type, kept in place.
   */
  function InterfaceStatements(dataTypes: seq<GQLType>): (r: seq<Option<Statement>>)
    requires forall i :: 0 <= i < |dataTypes| ==> Flat(dataTypes[i])
    ensures |r| == |dataTypes|
    ensures forall i :: 0 <= i < |dataTypes| ==> (r[i].Some? <==> dataTypes[i].kind == INTERFACE)
  {
    seq(|dataTypes|, i requires 0 <= i < |dataTypes| =>
      if dataTypes[i].kind == INTERFACE then Some(CreateInterface(dataTypes[i], None, dataTypes[i].name == "RequestType"))
      else None)
  }

  /**
   * Each interface is named after its type and has one property per field,
   * optional exactly when the field may be null, and typed to allow
   * `undefined` exactly in the request.
   */
  lemma InterfaceStatementsMeaning(dataTypes: seq<GQLType>, i: nat)
    requires forall k :: 0 <= k < |dataTypes| ==> Flat(dataTypes[k])
    requires i < |dataTypes| && dataTypes[i].kind == INTERFACE
    ensures var d := InterfaceStatements(dataTypes)[i].value;
            var fields := dataTypes[i].fields;
            && d.InterfaceDeclaration? && d.name == dataTypes[i].name
            && |d.members| == |fields|
            && forall j :: 0 <= j < |fields| ==>
                 && d.members[j].name == fields[j].name
                 && (d.members[j].optional <==> !fields[j].isNonNull)
                 && (d.members[j].typeNode.UnionType? <==> dataTypes[i].name == "RequestType")
  {
  }

  /** The hook for the derived names, guarded by the request's non-null variables. */
  function HookOf(names: HookNames, gqlVariableName: string, dataTypes: seq<GQLType>): Statement
  {
    CreateHook(CreateHookInput(names.hookName, names.responseType, names.reactHookName,
                               gqlVariableName, FindRequiredRequestVariables(dataTypes)))
  }

  datatype LegacyOperationHook = LegacyOperationHook(statements: seq<Option<Statement>>, imported: seq<string>)

  /**
   * `generateHookForOperation` without its effect: the mapped extracted types
   * followed by the hook, and the react hook it imports. Other definitions
   * give nothing and import nothing.
   */
  function LegacyHookForOperation(schema: Schema, def: Definition, gqlVariableName: string, fuel: nat)
    : (r: Result<LegacyOperationHook>)
    ensures !def.OperationDef? ==> r == Success(LegacyOperationHook([], []))
    ensures def.OperationDef? ==> (r.Success? <==> ExtractedTypes(schema, def, fuel).Success?)
    ensures def.OperationDef? && r.Success? ==>
              && |r.value.statements| == |ExtractedTypes(schema, def, fuel).value| + 1
              && |r.value.imported| == 1
  {
    if !def.OperationDef? then Success(LegacyOperationHook([], []))
    else
      match ExtractedTypes(schema, def, fuel)
      case Failure(e) => Failure(e)
      case Success(dataTypes) =>
        var names := NamesFor(def.operation, GenerateUniqueName(def.selections), false);
        Success(LegacyOperationHook(InterfaceStatements(dataTypes) + [Some(HookOf(names, gqlVariableName, dataTypes))],
                                    [names.reactHookName]))
  }

  /**
   * The hook is named `use` + the class-cased unique name and operation, calls
   * `use` + the class-cased operation typed by the request and `<Op>Type`, and
   * that react hook is what the operation imports.
   */
  lemma LegacyHookNames(schema: Schema, def: Definition, gqlVariableName: string, fuel: nat)
    requires def.OperationDef? && LegacyHookForOperation(schema, def, gqlVariableName, fuel).Success?
    ensures var r := LegacyHookForOperation(schema, def, gqlVariableName, fuel).value;
            var keyword := OperationKeyword(def.operation);
            var hook := r.statements[|r.statements| - 1];
            && hook.Some? && hook.value.FunctionDeclaration?
            && hook.value.name == "use" + ToClassName(GenerateUniqueName(def.selections) + "-" + keyword)
            && hook.value.returned.Call?
            && hook.value.returned.callee == "use" + ToClassName(keyword)
            && hook.value.returned.typeArguments == [Ref("RequestType"), Ref(ToClassName(keyword + "-type"))]
            && r.imported == [hook.value.returned.callee]
  {
    HookNamesShape(def.operation, GenerateUniqueName(def.selections), false);
  }

  /**
   * Queries, mutations and subscriptions alike pass the skip guard whenever
   * the request has a non-null variable, and it skips exactly when one of
   * them is missing.
   */
  lemma EveryOperationSkips(schema: Schema, def: Definition, gqlVariableName: string, fuel: nat,
                            truthy: string -> bool)
    requires def.OperationDef? && LegacyHookForOperation(schema, def, gqlVariableName, fuel).Success?
    ensures var r := LegacyHookForOperation(schema, def, gqlVariableName, fuel).value;
            var required := FindRequiredRequestVariables(ExtractedTypes(schema, def, fuel).value);
            var hook := r.statements[|r.statements| - 1];
            && hook.Some? && hook.value.FunctionDeclaration? && hook.value.returned.Call?
            && var arguments := hook.value.returned.arguments;
               && (|arguments| == 3 <==> required != [])
               && (required != [] ==>
                     arguments[2].ObjectLiteral? && |arguments[2].properties| == 1 &&
                     arguments[2].properties[0].PropertyAssignment? &&
                     (Skips(arguments[2].properties[0].value, truthy) <==>
                        exists i :: 0 <= i < |required| && !truthy(required[i])))
  {
    var required := FindRequiredRequestVariables(ExtractedTypes(schema, def, fuel).value);
    if required != [] {
      SkipObjectMeaning(required, truthy);
    }
  }

  // ---------------------------------------------------------------- shared context

  /** The context shared by the operations of one request: the names imported per module. */
  class HookContext {
    var imports: seq<(string, seq<string>)>

    constructor ()
      ensures imports == []
    {
      imports := [];
    }

    /**
     * `generateHookForOperation`: the statements of `LegacyHookForOperation`; for an
     * operation whose types extract, the react hook's name is pushed onto
     * `@apollo/react`'s imports, and nothing else changes.
     */
    method GenerateHookForOperation(schema: Schema, def: Definition, gqlVariableName: string, fuel: nat)
      returns (r: Result<seq<Option<Statement>>>)
      modifies this
      ensures var spec := LegacyHookForOperation(schema, def, gqlVariableName, fuel);
              && (r.Success? <==> spec.Success?)
              && (r.Success? ==> r.value == spec.value.statements)
              && (r.Failure? ==> r.error == spec.error)
              && imports == if def.OperationDef? && spec.Success? then AddImports(old(imports), ApolloReact, spec.value.imported)
                            else old(imports)
    {
      if !def.OperationDef? {
        return Success([]);
      }
      var names := NamesFor(def.operation, GenerateUniqueName(def.selections), false);
      var dataTypes := ExtractGQLTypes(schema, def, fuel);
      if dataTypes.Failure? {
        return Failure(dataTypes.error);
      }
      var statements := InterfaceStatements(dataTypes.value);
      var hook := HookOf(names, gqlVariableName, dataTypes.value);
      imports := AddImports(imports, ApolloReact, [names.reactHookName]);
      r := Success(statements + [Some(hook)]);
    }
  }

  /** Recording one operation's react hook leaves every other module's imports alone and grows `@apollo/react`'s by it. */
  lemma ImportsOnlyReactHook(imports: seq<(string, seq<string>)>, schema: Schema, def: Definition,
                             gqlVariableName: string, fuel: nat, other: string)
    requires Distinct(Keys(imports)) && other != ApolloReact
    requires def.OperationDef? && LegacyHookForOperation(schema, def, gqlVariableName, fuel).Success?
    ensures var r := AddImports(imports, ApolloReact, LegacyHookForOperation(schema, def, gqlVariableName, fuel).value.imported);
            && ImportsOf(r, ApolloReact) == ImportsOf(imports, ApolloReact) + ["use" + ToClassName(OperationKeyword(def.operation))]
            && ImportsOf(r, other) == ImportsOf(imports, other)
  {
    LegacyHookNames(schema, def, gqlVariableName, fuel);
    AddImportsSpec(imports, ApolloReact, LegacyHookForOperation(schema, def, gqlVariableName, fuel).value.imported, other);
  }
}
