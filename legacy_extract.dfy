/**
 * The first type extractor (`src/extract-gql-types.ts`): a flat list of
 * record types, one for the request's variables and one for every object
 * selection, each at the path of field names that leads to it. Nothing is
 * deduplicated and nothing is renamed.
 */
module LegacyExtract {
  import opened Wrappers
  import opened GraphQL
  import opened GraphQLUtil
  import opened Names
  import opened Collections

  /** The attributes of a field or variable type: the named type inside, and whether a non-null or a list wrapper occurs. */
  datatype Attributes = Attributes(typeName: string, isNonNull: bool, isArray: bool)

  /** `Field`: a named member; an absent `isNonNull` or `isArray` is modelled as false. */
  datatype FieldInfo = FieldInfo(name: string, attributes: Attributes)

  /** `Type`: a record type at a path of field names. */
  datatype TypeInfo = TypeInfo(name: string, path: seq<string>, fields: seq<FieldInfo>)

  /**
   * `parseFieldAttributes`: the innermost named type, flagged non-null when
   * any non-null wrapper occurs and array when any list wrapper occurs, at
   * whatever depth.
   */
  function ParseFieldAttributes(t: TypeRef): (r: Attributes)
    ensures r.typeName == FindDeepType(t)
    ensures r.isNonNull <==> NonNullWrapper in WrappersOf(t)
    ensures r.isArray <==> ListWrapper in WrappersOf(t)
  {
    match t
    case NamedType(name) => Attributes(name, false, false)
    case NonNullType(inner) => ParseFieldAttributes(inner).(isNonNull := true)
    case ListType(inner) => ParseFieldAttributes(inner).(isArray := true)
  }

  /** Attributes depend only on which wrappers occur, not on their order or number. */
  lemma AttributesOfWrapped(ws: seq<Wrapper>, name: string)
    ensures ParseFieldAttributes(Wrap(ws, name)) == Attributes(name, NonNullWrapper in ws, ListWrapper in ws)
  {
    DeepTypeOfWrapped(ws, name);
  }

  function InvalidSelectionMessage(s: Selection): string
  {
    "Invalid selection type: " + SelectionKind(s)
  }

  /** `mapEachField`: `caller` on each selection of a present set, in order, stopping at the first non-field. */
  function MapEachField<T>(selectionSet: SelectionSet, caller: Selection -> Result<T>): (r: Result<seq<T>>)
  {
    match selectionSet
    case NoSelectionSet => Success([])
    case SelectionSet(sels) => MapAll(sels, CheckField(caller))
  }

  function CheckField<T>(caller: Selection -> Result<T>): Selection -> Result<T>
  {
    (s: Selection) => if s.Field? then caller(s) else Failure(InvalidSelectionMessage(s))
  }

  /**
   * An absent set gives nothing; a present one gives `caller`'s result for
   * every selection when all are fields and `caller` accepts each, and
   * otherwise the error of the first selection that is not a field or that
   * `caller` rejects.
   */
  lemma MapEachFieldSpec<T>(selectionSet: SelectionSet, caller: Selection -> Result<T>)
    ensures var r := MapEachField(selectionSet, caller);
            && (selectionSet.NoSelectionSet? ==> r == Success([]))
            && (selectionSet.SelectionSet? ==>
                  var sels := selectionSet.selections;
                  && (r.Success? <==> forall i :: 0 <= i < |sels| ==> sels[i].Field? && caller(sels[i]).Success?)
                  && (r.Success? ==> |r.value| == |sels| && forall i :: 0 <= i < |sels| ==> r.value[i] == caller(sels[i]).value)
                  && (r.Failure? ==>
                        exists i :: 0 <= i < |sels| &&
                          (forall j :: 0 <= j < i ==> sels[j].Field? && caller(sels[j]).Success?) &&
                          if sels[i].Field? then caller(sels[i]).Failure? && r.error == caller(sels[i]).error
                          else r.error == InvalidSelectionMessage(sels[i])))
  {
    var checked := CheckField(caller);
    assert forall s :: checked(s) == if s.Field? then caller(s) else Failure(InvalidSelectionMessage(s));
  }

  /** `extractFieldInfo` of a selected field, looked up with the throwing `findField`. */
  function FieldInfoOf(objectDef: TypeDef, s: Selection): (r: Result<FieldInfo>)
    requires objectDef.ObjectTypeDef?
  {
    if !s.Field? then Failure(InvalidSelectionMessage(s))
    else
      match FindField(objectDef, s.name)
      case Failure(e) => Failure(e)
      case Success(targetField) => Success(FieldInfo(s.name, ParseFieldAttributes(targetField.typeRef)))
  }

  /**
   * `extractTypeInfo`: a type with one field per selection, in selection
   * order, each with the attributes of the field the object declares; it
   * fails at the first selection that is not a field or is not declared.
   */
  function ExtractTypeInfo(name: string, selectionSet: SelectionSet, objectDef: TypeDef, path: seq<string>)
    : (r: Result<TypeInfo>)
    requires objectDef.ObjectTypeDef?
  {
    match MapEachField(selectionSet, s => FieldInfoOf(objectDef, s))
    case Failure(e) => Failure(e)
    case Success(fields) => Success(TypeInfo(name, path, fields))
  }

  /** The fields of an extracted type are the selections, in order, with the declared attributes. */
  lemma TypeInfoFields(name: string, sels: seq<Selection>, objectDef: TypeDef, path: seq<string>)
    requires objectDef.ObjectTypeDef?
    ensures var r := ExtractTypeInfo(name, SelectionSet(sels), objectDef, path);
            && (r.Success? <==> forall i :: 0 <= i < |sels| ==> sels[i].Field? && FindField(objectDef, sels[i].name).Success?)
            && (r.Success? ==>
                  && r.value.name == name && r.value.path == path && |r.value.fields| == |sels|
                  && forall i :: 0 <= i < |sels| ==>
                       r.value.fields[i] == FieldInfo(sels[i].name, ParseFieldAttributes(FindField(objectDef, sels[i].name).value.typeRef)))
  {
    var caller := (s: Selection) => FieldInfoOf(objectDef, s);
    assert forall s :: caller(s) == FieldInfoOf(objectDef, s);
    MapEachFieldSpec(SelectionSet(sels), caller);
  }

  /**
   * `parseSelection`: a field whose declared type is not a scalar and which
   * has a selection set of its own contributes the types extracted from that
   * set, one field name further down the path; every other field
   * contributes nothing.
   */
  function ParsedSelection(schema: Schema, objectDef: TypeDef, s: Selection, path: seq<string>): (r: Result<seq<TypeInfo>>)
    requires objectDef.ObjectTypeDef?
    decreases s
  {
    if !s.Field? then Failure("Invalid field: \"" + Join(path, ",") + "." + SelectionKind(s) + "\"")
    else
      match FindField(objectDef, s.name)
      case Failure(e) => Failure(e)
      case Success(targetField) =>
        var typeName := FindDeepType(targetField.typeRef);
        if !IsScalarType(typeName) && s.selectionSet.SelectionSet? then
          ExtractedTypes(schema, typeName, s.selectionSet, path + [s.name])
        else Success([])
  }

  /** The types the first `n` selections of a set contribute, in order. */
  function ParsedSelections(schema: Schema, objectDef: TypeDef, selectionSet: SelectionSet, n: nat, path: seq<string>)
    : (r: Result<seq<TypeInfo>>)
    requires objectDef.ObjectTypeDef?
    requires selectionSet.SelectionSet? ==> n <= |selectionSet.selections|
    decreases selectionSet, 0, n
  {
    if n == 0 || selectionSet.NoSelectionSet? then Success([])
    else
      var s := selectionSet.selections[n - 1];
      match ParsedSelections(schema, objectDef, selectionSet, n - 1, path)
      case Failure(e) => Failure(e)
      case Success(before) =>
        if !s.Field? then Failure(InvalidSelectionMessage(s))
        else
          match ParsedSelection(schema, objectDef, s, path)
          case Failure(e) => Failure(e)
          case Success(here) => Success(before + here)
  }

  function SelectionCount(selectionSet: SelectionSet): nat
  {
    if selectionSet.SelectionSet? then |selectionSet.selections| else 0
  }

  /**
   * `extractTypes`: the type of the object `toClassName(type)` with its
   * selected fields, then, selection by selection, the types each selection
   * contributes (pre-order). No type is merged with another.
   */
  function ExtractedTypes(schema: Schema, typeName: string, selectionSet: SelectionSet, path: seq<string>)
    : (r: Result<seq<TypeInfo>>)
    decreases selectionSet, 1
  {
    match FindObjectType(schema, ToClassName(typeName))
    case Failure(e) => Failure(e)
    case Success(objectDef) =>
      match ExtractTypeInfo(ToClassName(typeName), selectionSet, objectDef, path)
      case Failure(e) => Failure(e)
      case Success(info) =>
        match ParsedSelections(schema, objectDef, selectionSet, SelectionCount(selectionSet), path)
        case Failure(e) => Failure(e)
        case Success(nested) => Success([info] + nested)
  }

  /** `path` is a prefix of `longer`. */
  predicate PathPrefix(path: seq<string>, longer: seq<string>)
  {
    |path| <= |longer| && longer[..|path|] == path
  }

  /**
   * Every extracted type lives at or below the path it was extracted at,
   * and the first is the object itself, at exactly that path.
   */
  lemma {:induction false} TypesBelowPath(schema: Schema, typeName: string, selectionSet: SelectionSet, path: seq<string>)
    requires ExtractedTypes(schema, typeName, selectionSet, path).Success?
    ensures var r := ExtractedTypes(schema, typeName, selectionSet, path).value;
            && |r| >= 1 && r[0].name == ToClassName(typeName) && r[0].path == path
            && forall k :: 0 <= k < |r| ==> PathPrefix(path, r[k].path)
    decreases selectionSet, 1
  {
    var objectDef := FindObjectType(schema, ToClassName(typeName)).value;
    ExtractedTypesUnfold(schema, typeName, selectionSet, path);
    var info := ExtractTypeInfo(ToClassName(typeName), selectionSet, objectDef, path).value;
    assert info.name == ToClassName(typeName) && info.path == path;
    SelectionsBelowPath(schema, objectDef, selectionSet, SelectionCount(selectionSet), path);
  }

  lemma {:induction false} SelectionsBelowPath(schema: Schema, objectDef: TypeDef, selectionSet: SelectionSet, n: nat,
                                               path: seq<string>)
    requires objectDef.ObjectTypeDef?
    requires selectionSet.SelectionSet? ==> n <= |selectionSet.selections|
    requires ParsedSelections(schema, objectDef, selectionSet, n, path).Success?
    ensures var r := ParsedSelections(schema, objectDef, selectionSet, n, path).value;
            forall k :: 0 <= k < |r| ==> PathPrefix(path, r[k].path)
    decreases selectionSet, 0, n
  {
    if n > 0 && selectionSet.SelectionSet? {
      var s := selectionSet.selections[n - 1];
      SelectionsBelowPath(schema, objectDef, selectionSet, n - 1, path);
      SelectionBelowPath(schema, objectDef, s, path);
      var before := ParsedSelections(schema, objectDef, selectionSet, n - 1, path).value;
      var here := ParsedSelection(schema, objectDef, s, path).value;
      var r: seq<TypeInfo> := before + here;
      assert ParsedSelections(schema, objectDef, selectionSet, n, path).value == r;
      forall k | 0 <= k < |r| ensures PathPrefix(path, r[k].path) {
        if k >= |before| {
          assert r[k] == here[k - |before|];
        }
      }
    }
  }

  /** What one selection contributes lives at or below the path. */
  lemma {:induction false} SelectionBelowPath(schema: Schema, objectDef: TypeDef, s: Selection, path: seq<string>)
    requires objectDef.ObjectTypeDef?
    requires ParsedSelection(schema, objectDef, s, path).Success?
    ensures var r := ParsedSelection(schema, objectDef, s, path).value;
            forall k :: 0 <= k < |r| ==> PathPrefix(path, r[k].path)
    decreases s
  {
    var targetField := FindField(objectDef, s.name).value;
    var typeName := FindDeepType(targetField.typeRef);
    if !IsScalarType(typeName) && s.selectionSet.SelectionSet? {
      TypesBelowPath(schema, typeName, s.selectionSet, path + [s.name]);
      var here := ExtractedTypes(schema, typeName, s.selectionSet, path + [s.name]).value;
      forall k | 0 <= k < |here| ensures PathPrefix(path, here[k].path) {
        PathPrefixOfStep(path, s.name, here[k].path);
      }
    }
  }

  lemma PathPrefixOfStep(path: seq<string>, step: string, longer: seq<string>)
    requires PathPrefix(path + [step], longer)
    ensures PathPrefix(path, longer)
  {
    assert longer[..|path|] == (path + [step])[..|path|];
  }

  /**
   * A selection that contributes types contributes, first, the type of its
   * field, at the selection's own path: two selections of the same schema
   * type give two types.
   */
  lemma NestedSelectionFirst(schema: Schema, objectDef: TypeDef, s: Selection, path: seq<string>)
    requires objectDef.ObjectTypeDef?
    requires ParsedSelection(schema, objectDef, s, path).Success?
    requires s.Field? && s.selectionSet.SelectionSet?
    requires !IsScalarType(FindDeepType(FindField(objectDef, s.name).value.typeRef))
    ensures var r := ParsedSelection(schema, objectDef, s, path).value;
            |r| >= 1 && r[0].name == ToClassName(FindDeepType(FindField(objectDef, s.name).value.typeRef)) &&
            r[0].path == path + [s.name]
  {
    var typeName := FindDeepType(FindField(objectDef, s.name).value.typeRef);
    TypesBelowPath(schema, typeName, s.selectionSet, path + [s.name]);
  }

  /**
   * `extractRequestType`: a `Request` type with one field per variable
   * definition, in declaration order; then, for each variable whose type is
   * not a scalar, the object type of that name with no fields.
   */
  function ExtractedRequestType(def: Definition, schema: Schema, path: seq<string>): (r: Result<seq<TypeInfo>>)
    requires def.OperationDef?
  {
    var vars := def.variableDefinitions;
    var fields := seq(|vars|, i requires 0 <= i < |vars| => FieldInfo(vars[i].name, ParseFieldAttributes(vars[i].typeRef)));
    match VariableTypes(schema, vars, |vars|, path)
    case Failure(e) => Failure(e)
    case Success(nested) => Success([TypeInfo("Request", path, fields)] + nested)
  }

  /** The types contributed by the first `n` variable definitions. */
  function VariableTypes(schema: Schema, vars: seq<VariableDef>, n: nat, path: seq<string>): (r: Result<seq<TypeInfo>>)
    requires n <= |vars|
  {
    if n == 0 then Success([])
    else
      match VariableTypes(schema, vars, n - 1, path)
      case Failure(e) => Failure(e)
      case Success(before) =>
        match TypesOfVariable(schema, vars[n - 1], path)
        case Failure(e) => Failure(e)
        case Success(here) => Success(before + here)
  }

  /**
   * What one variable contributes: nothing for a scalar; otherwise what
   * `extractTypes` gives when the `{}` it is handed is read as no selection
   * set, as evidently intended (see `VariableObjectLookup` and
   * `ObjectVariableThrowsAsWritten`): the object type of that name, with no fields.
   */
  function TypesOfVariable(schema: Schema, v: VariableDef, path: seq<string>): (r: Result<seq<TypeInfo>>)
  {
    var typeName := FindDeepType(v.typeRef);
    if IsScalarType(typeName) then Success([])
    else if DeclaresObject(schema, ToClassName(typeName)) then Success([TypeInfo(ToClassName(typeName), path, [])])
    else Failure(ObjectNotFoundMessage(typeName))
  }

  /** The `TypeError` a property read on `undefined` raises (the text is V8's). */
  const UndefinedSelectionsMessage := "Cannot read properties of undefined (reading 'map')"

  /**
   * What one variable contributes as written: `extractTypes(type, {} as any, ...)`
   * hands `mapEachField` an object without `selections`, so once the object
   * type is found, `selections.map` is called on `undefined` and throws.
   */
  function TypesOfVariableAsWritten(schema: Schema, v: VariableDef, path: seq<string>): (r: Result<seq<TypeInfo>>)
    ensures r.Success? <==> IsScalarType(FindDeepType(v.typeRef))
    ensures r.Success? ==> r.value == []
  {
    var typeName := FindDeepType(v.typeRef);
    if IsScalarType(typeName) then Success([])
    else if DeclaresObject(schema, ToClassName(typeName)) then Failure(UndefinedSelectionsMessage)
    else Failure(ObjectNotFoundMessage(typeName))
  }

  /**
   * A variable of an object type the schema declares: as written its
   * extraction throws, while the field-less type the request evidently
   * meant to add follows the request type.
   */
  lemma ObjectVariableThrowsAsWritten()
    ensures var schema := [ObjectTypeDef("User", [])];
            var v := VariableDef("user", NamedType("User"), None, []);
            && TypesOfVariableAsWritten(schema, v, ["variables"]) == Failure(UndefinedSelectionsMessage)
            && TypesOfVariable(schema, v, ["variables"]) == Success([TypeInfo("User", ["variables"], [])])
  {
    var schema := [ObjectTypeDef("User", [])];
    ClassNameOfWord("User");
    assert DeclaresObject(schema, "User");
  }

  /** The schema has an object type called `typeName`. */
  predicate DeclaresObject(schema: Schema, typeName: string)
  {
    schema != [] && (IsObjectNamed(schema[0], typeName) || DeclaresObject(schema[1..], typeName))
  }

  /** The error `findObjectType` raises for `toClassName(typeName)`. */
  function ObjectNotFoundMessage(typeName: string): string
  {
    RequiredPrefix + "Count not found \"type " + ToClassName(ToClassName(typeName)) + "\" in your schema"
  }

  /** `DeclaresObject` is exactly when `findObjectType` succeeds. */
  lemma {:induction false} DeclaresObjectFinds(schema: Schema, typeName: string)
    ensures DeclaresObject(schema, typeName) <==> exists i :: 0 <= i < |schema| && IsObjectNamed(schema[i], typeName)
  {
    if schema != [] {
      DeclaresObjectFinds(schema[1..], typeName);
      if IsObjectNamed(schema[0], typeName) {
        assert 0 < |schema| && IsObjectNamed(schema[0], typeName);
      }
      if exists i :: 0 <= i < |schema| && IsObjectNamed(schema[i], typeName) {
        var i :| 0 <= i < |schema| && IsObjectNamed(schema[i], typeName);
        if i > 0 {
          assert IsObjectNamed(schema[1..][i - 1], typeName);
        }
      }
    }
  }

  /**
   * A non-scalar variable is looked up among the object types only: unless
   * the schema has an object type of that name, extraction fails, and when
   * it has one, a field-less type of that name follows at the request's path.
   */
  lemma VariableObjectLookup(schema: Schema, typeName: string, path: seq<string>)
    ensures var r := ExtractedTypes(schema, typeName, NoSelectionSet, path);
            && (r.Success? <==> FindObjectType(schema, ToClassName(typeName)).Success?)
            && (r.Success? <==> DeclaresObject(schema, ToClassName(typeName)))
            && (r.Failure? ==> r.error == ObjectNotFoundMessage(typeName))
            && (r.Success? ==> r.value == [TypeInfo(ToClassName(typeName), path, [])])
  {
    var objectDef := FindObjectType(schema, ToClassName(typeName));
    DeclaresObjectFinds(schema, ToClassName(typeName));
    if objectDef.Success? {
      assert ExtractTypeInfo(ToClassName(typeName), NoSelectionSet, objectDef.value, path)
          == Success(TypeInfo(ToClassName(typeName), path, []));
    }
  }

  /**
   * `extractGQLTypes`: for an operation, the request types at `variables`
   * followed by the types of the operation's selections at the operation
   * keyword; nothing for any other definition.
   */
  function ExtractedGQLTypes(schema: Schema, def: Definition): (r: Result<seq<TypeInfo>>)
  {
    if !def.OperationDef? then Success([])
    else
      match ExtractedRequestType(def, schema, ["variables"])
      case Failure(e) => Failure(e)
      case Success(request) =>
        match ExtractedTypes(schema, OperationKeyword(def.operation), SelectionSet(def.selections), [OperationKeyword(def.operation)])
        case Failure(e) => Failure(e)
        case Success(types) => Success(request + types)
  }

  /**
   * The output of an operation starts with its `Request` type at
   * `variables`, one field per variable, and the operation's root type
   * follows the request types at the operation keyword.
   */
  lemma GQLTypesStartWithRequest(schema: Schema, def: Definition)
    requires def.OperationDef? && ExtractedGQLTypes(schema, def).Success?
    ensures var r := ExtractedGQLTypes(schema, def).value;
            var request := ExtractedRequestType(def, schema, ["variables"]).value;
            && |r| > |request| >= 1
            && r[0].name == "Request" && r[0].path == ["variables"] && |r[0].fields| == |def.variableDefinitions|
            && (forall i :: 0 <= i < |def.variableDefinitions| ==> r[0].fields[i].name == def.variableDefinitions[i].name)
            && r[|request|].name == ToClassName(OperationKeyword(def.operation))
            && r[|request|].path == [OperationKeyword(def.operation)]
  {
    TypesBelowPath(schema, OperationKeyword(def.operation), SelectionSet(def.selections), [OperationKeyword(def.operation)]);
  }

  // ---------------------------------------------------------------- the building methods

  /** `extractTypes`, building `output` by push and reassignment. */
  method ExtractTypes(schema: Schema, typeName: string, selectionSet: SelectionSet, path: seq<string>)
    returns (r: Result<seq<TypeInfo>>)
    ensures r == ExtractedTypes(schema, typeName, selectionSet, path)
    decreases selectionSet, 1
  {
    var objectDef := FindObjectType(schema, ToClassName(typeName));
    if objectDef.Failure? {
      return Failure(objectDef.error);
    }
    var info := ExtractTypeInfo(ToClassName(typeName), selectionSet, objectDef.value, path);
    if info.Failure? {
      return Failure(info.error);
    }
    var nested := ParseSelections(schema, objectDef.value, selectionSet, path);
    if nested.Failure? {
      return Failure(nested.error);
    }
    ExtractedTypesUnfold(schema, typeName, selectionSet, path);
    r := Success([info.value] + nested.value);
  }

  /** The `mapEachField` loop of `extractTypes`: `output` grows by what each selection contributes. */
  method ParseSelections(schema: Schema, objectDef: TypeDef, selectionSet: SelectionSet, path: seq<string>)
    returns (r: Result<seq<TypeInfo>>)
    requires objectDef.ObjectTypeDef?
    ensures r == ParsedSelections(schema, objectDef, selectionSet, SelectionCount(selectionSet), path)
    decreases selectionSet, 0
  {
    if selectionSet.NoSelectionSet? {
      return Success([]);
    }
    var sels := selectionSet.selections;
    var output: seq<TypeInfo> := [];
    var i := 0;
    while i < |sels|
      invariant 0 <= i <= |sels|
      invariant ParsedSelections(schema, objectDef, selectionSet, i, path) == Success(output)
    {
      SelectionsStep(schema, objectDef, selectionSet, i, path);
      if !sels[i].Field? {
        SelectionFailureSpreads(schema, objectDef, selectionSet, i + 1, path);
        return Failure(InvalidSelectionMessage(sels[i]));
      }
      var here := ParseSelection(schema, objectDef, sels[i], path);
      if here.Failure? {
        SelectionFailureSpreads(schema, objectDef, selectionSet, i + 1, path);
        return Failure(here.error);
      }
      output := output + here.value;
      i := i + 1;
    }
    r := Success(output);
  }

  /** `extractTypes` step by step: the object, its type, then what its selections contribute. */
  lemma ExtractedTypesUnfold(schema: Schema, typeName: string, selectionSet: SelectionSet, path: seq<string>)
    ensures var objectDef := FindObjectType(schema, ToClassName(typeName));
            ExtractedTypes(schema, typeName, selectionSet, path)
            == if objectDef.Failure? then Failure(objectDef.error)
               else
                 var info := ExtractTypeInfo(ToClassName(typeName), selectionSet, objectDef.value, path);
                 if info.Failure? then Failure(info.error)
                 else
                   var nested := ParsedSelections(schema, objectDef.value, selectionSet, SelectionCount(selectionSet), path);
                   if nested.Failure? then Failure(nested.error) else Success([info.value] + nested.value)
  {
  }

  /** One more selection: a non-field fails, and a field's types follow those before it. */
  lemma SelectionsStep(schema: Schema, objectDef: TypeDef, selectionSet: SelectionSet, i: nat, path: seq<string>)
    requires objectDef.ObjectTypeDef? && selectionSet.SelectionSet? && i < |selectionSet.selections|
    requires ParsedSelections(schema, objectDef, selectionSet, i, path).Success?
    ensures var before := ParsedSelections(schema, objectDef, selectionSet, i, path).value;
            var s := selectionSet.selections[i];
            ParsedSelections(schema, objectDef, selectionSet, i + 1, path)
            == if !s.Field? then Failure(InvalidSelectionMessage(s))
               else
                 var here := ParsedSelection(schema, objectDef, s, path);
                 if here.Failure? then Failure(here.error) else Success(before + here.value)
  {
  }

  /** `parseSelection`, recursing through `extractTypes`. */
  method ParseSelection(schema: Schema, objectDef: TypeDef, s: Selection, path: seq<string>) returns (r: Result<seq<TypeInfo>>)
    requires objectDef.ObjectTypeDef?
    ensures r == ParsedSelection(schema, objectDef, s, path)
    decreases s
  {
    if !s.Field? {
      return Failure("Invalid field: \"" + Join(path, ",") + "." + SelectionKind(s) + "\"");
    }
    var targetField := FindField(objectDef, s.name);
    if targetField.Failure? {
      return Failure(targetField.error);
    }
    var typeName := FindDeepType(targetField.value.typeRef);
    if !IsScalarType(typeName) && s.selectionSet.SelectionSet? {
      r := ExtractTypes(schema, typeName, s.selectionSet, path + [s.name]);
    } else {
      r := Success([]);
    }
  }

  /** A selection that fails makes every longer prefix fail with its error. */
  lemma {:induction false} SelectionFailureSpreads(schema: Schema, objectDef: TypeDef, selectionSet: SelectionSet, k: nat,
                                                   path: seq<string>)
    requires objectDef.ObjectTypeDef? && selectionSet.SelectionSet? && k <= |selectionSet.selections|
    requires ParsedSelections(schema, objectDef, selectionSet, k, path).Failure?
    ensures ParsedSelections(schema, objectDef, selectionSet, |selectionSet.selections|, path)
         == ParsedSelections(schema, objectDef, selectionSet, k, path)
    decreases |selectionSet.selections| - k
  {
    if k < |selectionSet.selections| {
      SelectionFailureSpreads(schema, objectDef, selectionSet, k + 1, path);
    }
  }

  /** `extractRequestType`, building `output` by push and reassignment. */
  method ExtractRequestType(def: Definition, schema: Schema, path: seq<string>) returns (r: Result<seq<TypeInfo>>)
    requires def.OperationDef?
    ensures r == ExtractedRequestType(def, schema, path)
  {
    var vars := def.variableDefinitions;
    var fields := seq(|vars|, i requires 0 <= i < |vars| => FieldInfo(vars[i].name, ParseFieldAttributes(vars[i].typeRef)));
    var nested := ExtractVariableTypes(schema, vars, path);
    if nested.Failure? {
      return Failure(nested.error);
    }
    r := Success([TypeInfo("Request", path, fields)] + nested.value);
  }

  /** The `forEach` loop of `extractRequestType`: `output` grows by the types of each non-scalar variable. */
  method ExtractVariableTypes(schema: Schema, vars: seq<VariableDef>, path: seq<string>) returns (r: Result<seq<TypeInfo>>)
    ensures r == VariableTypes(schema, vars, |vars|, path)
  {
    var output: seq<TypeInfo> := [];
    var i := 0;
    while i < |vars|
      invariant 0 <= i <= |vars|
      invariant VariableTypes(schema, vars, i, path) == Success(output)
    {
      var next := ExtractVariableType(schema, vars, i, path, output);
      if next.Failure? {
        VariableFailureSpreads(schema, vars, i + 1, path);
        return next;
      }
      output := next.value;
      i := i + 1;
    }
    r := Success(output);
  }

  /** One iteration of that loop: a non-scalar variable's types are appended to `output`. */
  method ExtractVariableType(schema: Schema, vars: seq<VariableDef>, i: nat, path: seq<string>, output: seq<TypeInfo>)
    returns (r: Result<seq<TypeInfo>>)
    requires i < |vars| && VariableTypes(schema, vars, i, path) == Success(output)
    ensures r == VariableTypes(schema, vars, i + 1, path)
  {
    VariablesStep(schema, vars, i, path);
    var typeName := FindDeepType(vars[i].typeRef);
    if !IsScalarType(typeName) {
      var here := ExtractTypes(schema, typeName, NoSelectionSet, path);
      VariableObjectLookup(schema, typeName, path);
      if here.Failure? {
        return Failure(here.error);
      }
      r := Success(output + here.value);
    } else {
      assert output + [] == output;
      r := Success(output);
    }
  }

  /** One more variable: what it contributes follows what the variables before it contributed. */
  lemma VariablesStep(schema: Schema, vars: seq<VariableDef>, i: nat, path: seq<string>)
    requires i < |vars| && VariableTypes(schema, vars, i, path).Success?
    ensures var before := VariableTypes(schema, vars, i, path).value;
            var here := TypesOfVariable(schema, vars[i], path);
            VariableTypes(schema, vars, i + 1, path)
            == if here.Failure? then Failure(here.error) else Success(before + here.value)
  {
  }

  lemma {:induction false} VariableFailureSpreads(schema: Schema, vars: seq<VariableDef>, k: nat, path: seq<string>)
    requires k <= |vars| && VariableTypes(schema, vars, k, path).Failure?
    ensures VariableTypes(schema, vars, |vars|, path) == VariableTypes(schema, vars, k, path)
    decreases |vars| - k
  {
    if k < |vars| {
      VariableFailureSpreads(schema, vars, k + 1, path);
    }
  }

  /** `extractGQLTypes`. */
  method ExtractGQLTypes(schema: Schema, def: Definition) returns (r: Result<seq<TypeInfo>>)
    ensures r == ExtractedGQLTypes(schema, def)
  {
    if !def.OperationDef? {
      return Success([]);
    }
    var keyword := OperationKeyword(def.operation);
    var request := ExtractRequestType(def, schema, ["variables"]);
    if request.Failure? {
      return Failure(request.error);
    }
    var types := ExtractTypes(schema, keyword, SelectionSet(def.selections), [keyword]);
    if types.Failure? {
      return Failure(types.error);
    }
    r := Success(request.value + types.value);
  }
}
