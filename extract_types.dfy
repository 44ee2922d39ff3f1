/**
 * The type extractor: from a completed operation and the schema it derives one
 * type shape for the request variables, one for the operation's result, and
 * one for every object, input object or enum type reached from them; then it
 * gives every shape a unique name and keeps one shape per content key.
 */
module ExtractTypes {
  import opened Wrappers
  import opened GraphQL
  import opened GraphQLUtil
  import opened Names
  import opened Collections

  datatype GQLObjectType = INTERFACE | ENUM

  /** A field's type: the name of a scalar, enum value or named shape, or a nested shape. */
  datatype FieldType = Named(typeName: string) | Nested(gqlType: GQLType)

  /** `isNonNull` and `isArray` are absent from the record when false. */
  datatype GQLField = GQLField(name: string, fieldType: FieldType, schemaType: string, isNonNull: bool, isArray: bool)

  datatype GQLType = GQLType(name: string, kind: GQLObjectType, path: seq<string>, fields: seq<GQLField>)

  /** Where the walk is: the schema, the path from the root, and whether it is under the variables. */
  datatype Context = Context(schema: Schema, path: seq<string>, isInput: bool)

  /** `nextContext`: one step further down. */
  function NextContext(context: Context, step: string): (r: Context)
    ensures r.schema == context.schema && r.isInput == context.isInput && r.path == context.path + [step]
  {
    context.(path := context.path + [step])
  }

  const StackOverflow := "RangeError: Maximum call stack size exceeded"
  const InvalidFieldKind := "Invalid field!"

  /** The message for a selected or declared field the parent type lacks. */
  function MissingFieldMessage(objectDef: TypeDef, fieldName: string, context: Context): string
  {
    "Invalid field: \"" + Join(context.path + [fieldName], ".") + "\" - no such field exists in \"" +
    (if context.isInput then "input" else "type") + " " + objectDef.name + "\""
  }

  /** `findField`: the nullable lookup, turned into an error naming the path and the parent type. */
  function FindField(objectDef: TypeDef, fieldName: string, context: Context): (r: Result<FieldDef>)
    ensures r.Success? <==> FindNullableField(objectDef, fieldName).Some?
    ensures r.Success? ==> r.value == FindNullableField(objectDef, fieldName).value
    ensures r.Failure? ==> r.error == MissingFieldMessage(objectDef, fieldName, context)
  {
    match FindNullableField(objectDef, fieldName)
    case None => Failure(MissingFieldMessage(objectDef, fieldName, context))
    case Some(field) => Success(field)
  }

  /** What `extractGQLField` is given: a selection, or a field a definition declares. */
  datatype FieldSource =
    | SelectionSource(selection: Selection)
    | FieldDefinitionSource(fieldDef: FieldDef)
    | InputValueSource(inputValue: InputValue)

  /** The declared fields of a definition, as `def.fields` lists them (none for scalars and unions). */
  function DeclaredSources(def: TypeDef): (r: seq<FieldSource>)
    ensures forall i :: 0 <= i < |r| ==> !r[i].SelectionSource?
    ensures def.ObjectTypeDef? ==> |r| == |def.fields|
    ensures def.InputObjectTypeDef? ==> |r| == |def.inputFields|
    ensures !def.ObjectTypeDef? && !def.InputObjectTypeDef? ==> r == []
  {
    match def
    case ObjectTypeDef(_, fields) => seq(|fields|, i requires 0 <= i < |fields| => FieldDefinitionSource(fields[i]))
    case InputObjectTypeDef(_, inputs) => seq(|inputs|, i requires 0 <= i < |inputs| => InputValueSource(inputs[i]))
    case _ => []
  }

  function SelectionSize(s: Selection): nat
    decreases s
  {
    match s
    case Field(_, _, selectionSet) => 1 + SelectionSetSize(selectionSet)
    case InlineFragment(_, selections) => 1 + SelectionsSize(selections)
    case FragmentSpread(_) => 1
  }

  function SelectionSetSize(ss: SelectionSet): nat
    decreases ss
  {
    match ss
    case NoSelectionSet => 0
    case SelectionSet(selections) => 1 + SelectionsSize(selections)
  }

  function SelectionsSize(sels: seq<Selection>): nat
    decreases sels
  {
    if sels == [] then 0 else SelectionSize(sels[0]) + SelectionsSize(sels[1..])
  }

  function SourceSize(src: FieldSource): nat
  {
    if src.SelectionSource? then SelectionSize(src.selection) else 0
  }

  function SourcesSize(srcs: seq<FieldSource>): nat
  {
    if srcs == [] then 0 else SourceSize(srcs[0]) + SourcesSize(srcs[1..])
  }

  function TypeRefSize(t: TypeRef): nat
  {
    match t
    case NamedType(_) => 0
    case NonNullType(inner) => 1 + TypeRefSize(inner)
    case ListType(inner) => 1 + TypeRefSize(inner)
  }

  /**
   * `extractGQLFieldType`: the wrappers become flags, the innermost named type
   * becomes `schemaType`, and a type that is not a built-in scalar becomes a
   * nested shape. `fuel` bounds the depth of input objects followed through
   * their declared fields (the call stack, in the generator).
   */
  function ExtractGQLFieldType(name: string, typeRef: TypeRef, selectionSet: SelectionSet, context: Context, fuel: nat)
    : (r: Result<GQLField>)
    ensures r.Success? ==>
              && r.value.name == name
              && r.value.schemaType == FindDeepType(typeRef)
              && (r.value.isNonNull <==> NonNullWrapper in WrappersOf(typeRef))
              && (r.value.isArray <==> ListWrapper in WrappersOf(typeRef))
              && (r.value.fieldType.Named? <==> IsScalarType(FindDeepType(typeRef)))
              && (r.value.fieldType.Named? ==> r.value.fieldType.typeName == FindDeepType(typeRef))
              && (r.value.fieldType.Nested? ==> r.value.fieldType.gqlType.path == context.path)
    decreases fuel, SelectionSetSize(selectionSet), 4, TypeRefSize(typeRef)
  {
    match typeRef
    case NamedType(typeName) =>
      if !IsScalarType(typeName) then
        match ExtractGQLType(typeName, selectionSet, context, fuel)
        case Failure(e) => Failure(e)
        case Success(t) => Success(GQLField(name, Nested(t), typeName, false, false))
      else
        Success(GQLField(name, Named(typeName), typeName, false, false))
    case NonNullType(inner) =>
      (match ExtractGQLFieldType(name, inner, selectionSet, context, fuel)
      case Failure(e) => Failure(e)
      case Success(f) => Success(f.(isNonNull := true)))
    case ListType(inner) =>
      match ExtractGQLFieldType(name, inner, selectionSet, context, fuel)
      case Failure(e) => Failure(e)
      case Success(f) => Success(f.(isArray := true))
  }

  /**
   * `extractGQLField`: a selected field or a declared input field, typed by the
   * parent's declaration of it; any other source is refused.
   */
  function ExtractGQLField(field: FieldSource, parentObjectDef: TypeDef, context: Context, fuel: nat): (r: Result<GQLField>)
    ensures !(field.SelectionSource? && field.selection.Field?) && !field.InputValueSource? ==> r == Failure(InvalidFieldKind)
    ensures r.Success? ==> r.value.name == FieldSourceName(field)
    decreases fuel, SourceSize(field), 5, 0
  {
    match field
    case SelectionSource(Field(name, _, selectionSet)) =>
      (match FindField(parentObjectDef, name, context)
      case Failure(e) => Failure(e)
      case Success(fieldDef) => ExtractGQLFieldType(name, fieldDef.typeRef, selectionSet, NextContext(context, name), fuel))
    case InputValueSource(input) =>
      (match FindField(parentObjectDef, input.name, context)
      case Failure(e) => Failure(e)
      case Success(fieldDef) => ExtractGQLFieldType(input.name, fieldDef.typeRef, NoSelectionSet, NextContext(context, input.name), fuel))
    case _ => Failure(InvalidFieldKind)
  }

  function FieldSourceName(field: FieldSource): string
  {
    match field
    case SelectionSource(s) => if s.Field? then s.name else ""
    case FieldDefinitionSource(f) => f.name
    case InputValueSource(i) => i.name
  }

  /** `selectionSet.selections.map(...)`: one field per selection, in order, or the first error. */
  function ExtractSelectedFields(selections: seq<Selection>, def: TypeDef, context: Context, fuel: nat)
    : (r: Result<seq<GQLField>>)
    ensures r.Success? ==> |r.value| == |selections|
    ensures r.Success? ==> forall i :: 0 <= i < |selections| ==> selections[i].Field? && r.value[i].name == selections[i].name
    decreases fuel, SelectionsSize(selections), 6, 0
  {
    if selections == [] then Success([])
    else
      match ExtractGQLField(SelectionSource(selections[0]), def, context, fuel)
      case Failure(e) => Failure(e)
      case Success(f) =>
        match ExtractSelectedFields(selections[1..], def, context, fuel)
        case Failure(e) => Failure(e)
        case Success(rest) => Success([f] + rest)
  }

  /** `def.fields.map(...)` for a definition reached without a selection set. */
  function ExtractDeclaredFields(sources: seq<FieldSource>, def: TypeDef, context: Context, fuel: nat)
    : (r: Result<seq<GQLField>>)
    ensures r.Success? ==> |r.value| == |sources|
    ensures r.Success? ==> forall i :: 0 <= i < |sources| ==> r.value[i].name == FieldSourceName(sources[i])
    decreases fuel, SourcesSize(sources), 6, |sources|
  {
    if sources == [] then Success([])
    else
      match ExtractGQLField(sources[0], def, context, fuel)
      case Failure(e) => Failure(e)
      case Success(f) =>
        match ExtractDeclaredFields(sources[1..], def, context, fuel)
        case Failure(e) => Failure(e)
        case Success(rest) => Success([f] + rest)
  }

  /** `extractEnumType`: one field per enum value, named, typed and schema-typed by the value. */
  function ExtractEnumType(objectDef: TypeDef, context: Context): (r: GQLType)
    requires objectDef.EnumTypeDef?
    ensures r.name == objectDef.name && r.kind == ENUM && r.path == context.path
    ensures |r.fields| == |objectDef.values|
    ensures forall i :: 0 <= i < |r.fields| ==>
              r.fields[i] == GQLField(objectDef.values[i], Named(objectDef.values[i]), objectDef.values[i], false, false)
  {
    var values := objectDef.values;
    GQLType(objectDef.name, ENUM, context.path,
            seq(|values|, i requires 0 <= i < |values| => GQLField(values[i], Named(values[i]), values[i], false, false)))
  }

  function InvalidTypeMessage(name: string, context: Context): string
  {
    "Invalid type: \"" + name + "\" found at \"" + Join(context.path, ".") + "\""
  }

  /**
   * `extractGQLType`: the shape of the schema type `toClassName(name)`. An enum
   * becomes an ENUM shape; anything else an INTERFACE named `<Name>Type`
   * whose fields are the selected ones, in selection order, or else every
   * declared field.
   */
  function ExtractGQLType(name: string, selectionSet: SelectionSet, context: Context, fuel: nat): (r: Result<GQLType>)
    ensures FindSchemaType(context.schema, ToClassName(name)).None? ==> r == Failure(InvalidTypeMessage(name, context))
    ensures r.Success? ==> r.value.path == context.path
    ensures r.Success? && FindSchemaType(context.schema, ToClassName(name)).value.EnumTypeDef? ==>
              r.value == ExtractEnumType(FindSchemaType(context.schema, ToClassName(name)).value, context)
    ensures r.Success? && !FindSchemaType(context.schema, ToClassName(name)).value.EnumTypeDef? ==>
              && r.value.kind == INTERFACE
              && r.value.name == ToClassName(name + "-type")
              && (selectionSet.SelectionSet? ==>
                    |r.value.fields| == |selectionSet.selections| &&
                    forall i :: 0 <= i < |r.value.fields| ==>
                      selectionSet.selections[i].Field? && r.value.fields[i].name == selectionSet.selections[i].name)
              && (selectionSet.NoSelectionSet? ==>
                    var sources := DeclaredSources(FindSchemaType(context.schema, ToClassName(name)).value);
                    |r.value.fields| == |sources| &&
                    forall i :: 0 <= i < |r.value.fields| ==> r.value.fields[i].name == FieldSourceName(sources[i]))
    decreases fuel, SelectionSetSize(selectionSet), 3, 0
  {
    match FindSchemaType(context.schema, ToClassName(name))
    case None => Failure(InvalidTypeMessage(name, context))
    case Some(def) =>
      if def.EnumTypeDef? then Success(ExtractEnumType(def, context))
      else
        var fields :=
          if selectionSet.SelectionSet? then ExtractSelectedFields(selectionSet.selections, def, context, fuel)
          else if DeclaredSources(def) == [] then Success([])
          else if fuel == 0 then Failure(StackOverflow)
          else ExtractDeclaredFields(DeclaredSources(def), def, context, fuel - 1);
        match fields
        case Failure(e) => Failure(e)
        case Success(fs) => Success(GQLType(ToClassName(name + "-type"), INTERFACE, context.path, fs))
  }

  /** `extractInputType`: the `RequestType` shape, one field per variable definition, in order. */
  function ExtractInputType(variableDefinitions: seq<VariableDef>, context: Context, fuel: nat): (r: Result<GQLType>)
    ensures r.Success? ==>
              && r.value.name == "RequestType" && r.value.kind == INTERFACE && r.value.path == context.path
              && |r.value.fields| == |variableDefinitions|
              && forall i :: 0 <= i < |variableDefinitions| ==>
                   r.value.fields[i].name == variableDefinitions[i].name &&
                   r.value.fields[i].schemaType == FindDeepType(variableDefinitions[i].typeRef) &&
                   (r.value.fields[i].isNonNull <==> NonNullWrapper in WrappersOf(variableDefinitions[i].typeRef))
  {
    var fields := MapAll(variableDefinitions, (v: VariableDef) =>
      ExtractGQLFieldType(v.name, v.typeRef, NoSelectionSet, NextContext(context, v.name), fuel));
    match fields
    case Failure(e) => Failure(e)
    case Success(fs) => Success(GQLType("RequestType", INTERFACE, context.path, fs))
  }

  /**
   * The content key of a shape, standing for the md5 digest the generator
   * takes of the name and the sorted, de-duplicated field names.
   */
  datatype TypeId = TypeId(name: string, fieldNames: set<string>)

  function FieldNameSet(fields: seq<GQLField>): set<string>
  {
    set f | f in fields :: f.name
  }

  /** `generateGQLTypeId`. */
  function GenerateGQLTypeId(item: GQLType): (r: TypeId)
    ensures r.name == item.name
    ensures forall f :: f in item.fields ==> f.name in r.fieldNames
    ensures forall n :: n in r.fieldNames ==> exists i :: 0 <= i < |item.fields| && item.fields[i].name == n
  {
    TypeId(item.name, FieldNameSet(item.fields))
  }

  /** The key ignores field order, repetition and field types: only the name and the set of field names count. */
  lemma TypeIdIgnoresFieldOrder(a: GQLType, b: GQLType)
    requires a.name == b.name
    requires forall f :: f in a.fields ==> exists g :: g in b.fields && g.name == f.name
    requires forall g :: g in b.fields ==> exists f :: f in a.fields && f.name == g.name
    ensures GenerateGQLTypeId(a) == GenerateGQLTypeId(b)
  {
    assert FieldNameSet(a.fields) == FieldNameSet(b.fields);
  }

  /**
   * The registry `context.types`: one JavaScript object holding both names and
   * content keys. Both kinds of key are kept apart here (a 32-digit hex digest
   * is never a type name).
   */
  datatype RegistryKey = NameKey(name: string) | IdKey(id: TypeId)

  type Registry = map<RegistryKey, string>

  /**
   * What the registry holds: a claimed name maps to itself, and a content key
   * maps to the name of its own shape, which is claimed.
   */
  ghost predicate Valid(types: Registry)
  {
    && (forall n :: NameKey(n) in types ==> types[NameKey(n)] == n)
    && (forall id :: IdKey(id) in types ==> types[IdKey(id)] == id.name && NameKey(id.name) in types)
  }

  /** No name is claimed by two content keys. */
  ghost predicate NamesApart(types: Registry)
  {
    forall a, b :: IdKey(a) in types && IdKey(b) in types && a.name == b.name ==> a == b
  }

  /**
   * The names tried, in order, when a shape's own name is taken: the path
   * suffixes from the last segment outwards glued in front of the name, then
   * the name with 1 to 100 appended.
   */
  function Candidates(gqlType: GQLType): (r: seq<string>)
    ensures |r| == |gqlType.path| + 100
  {
    PathCandidates(gqlType.path, gqlType.name) + CounterCandidates(gqlType.name)
  }

  /** `toClassName(path.slice(index).join('-') + name)` for index = length - 1 down to 0. */
  function PathCandidates(path: seq<string>, name: string): (r: seq<string>)
    ensures |r| == |path|
    ensures forall k :: 0 <= k < |path| ==> r[k] == PathCandidate(path, name, |path| - 1 - k)
  {
    seq(|path|, k requires 0 <= k < |path| => PathCandidate(path, name, |path| - 1 - k))
  }

  function PathCandidate(path: seq<string>, name: string, index: nat): string
    requires index < |path|
  {
    ToClassName(Join(path[index..], "-") + name)
  }

  /** `toClassName(name + counter)` for counter = 1 to 100. */
  function CounterCandidates(name: string): (r: seq<string>)
    ensures |r| == 100
    ensures forall k :: 0 <= k < 100 ==> r[k] == CounterCandidate(name, k + 1)
  {
    seq(100, k requires 0 <= k < 100 => CounterCandidate(name, k + 1))
  }

  function CounterCandidate(name: string, counter: nat): string
  {
    ToClassName(name + NatToString(counter))
  }

  /** The first candidate nobody claimed, or the last candidate when all are claimed. */
  function PickName(candidates: seq<string>, types: Registry): (r: string)
    requires |candidates| > 0
    ensures r in candidates
    ensures NameKey(r) !in types ==>
              exists k :: 0 <= k < |candidates| && candidates[k] == r &&
                forall j :: 0 <= j < k ==> NameKey(candidates[j]) in types
    ensures NameKey(r) in types ==>
              r == candidates[|candidates| - 1] &&
              forall j :: 0 <= j < |candidates| ==> NameKey(candidates[j]) in types
  {
    if NameKey(candidates[0]) !in types || |candidates| == 1 then candidates[0]
    else PickName(candidates[1..], types)
  }

  /**
   * `deduplicateGQLTypeName`: the name a shape gets and the registry after it.
   * A known content key keeps its name; a free name is claimed as it is;
   * otherwise the first free candidate is claimed, together with the content
   * key of the renamed shape.
   */
  function NameChoice(types: Registry, gqlType: GQLType): (string, Registry)
  {
    var id := GenerateGQLTypeId(gqlType);
    if IdKey(id) in types then (types[IdKey(id)], types)
    else if NameKey(gqlType.name) !in types then
      (gqlType.name, types[NameKey(gqlType.name) := gqlType.name][IdKey(id) := gqlType.name])
    else
      var name := PickName(Candidates(gqlType), types);
      var newId := GenerateGQLTypeId(gqlType.(name := name));
      (name, types[NameKey(name) := name][IdKey(newId) := name])
  }

  /** The naming rules, and what the registry remembers afterwards. */
  lemma NameChoiceSpec(types: Registry, gqlType: GQLType)
    requires Valid(types)
    ensures var (name, types') := NameChoice(types, gqlType);
            && Valid(types')
            && NameKey(name) in types'
            && (forall k :: k in types ==> k in types' && types'[k] == types[k])
            && types'[IdKey(GenerateGQLTypeId(gqlType.(name := name)))] == name
            && (IdKey(GenerateGQLTypeId(gqlType)) in types ==> name == gqlType.name && types' == types)
            && (NameKey(gqlType.name) !in types ==> name == gqlType.name)
            && (IdKey(GenerateGQLTypeId(gqlType)) !in types && NameKey(gqlType.name) in types ==>
                  name == PickName(Candidates(gqlType), types))
  {
  }

  /** Unless every candidate was taken, distinct content keys keep distinct names. */
  lemma NameChoiceKeepsNamesApart(types: Registry, gqlType: GQLType)
    requires Valid(types) && NamesApart(types)
    requires var (name, _) := NameChoice(types, gqlType);
             NameKey(name) !in types || IdKey(GenerateGQLTypeId(gqlType)) in types
    ensures NamesApart(NameChoice(types, gqlType).1)
  {
  }

  /** Every key of `types` is still in `types'` with the same name. */
  ghost predicate Grows(types: Registry, types': Registry)
  {
    forall k :: k in types ==> k in types' && types'[k] == types[k]
  }

  /** A shape whose fields all refer to other shapes by name. */
  predicate Flat(t: GQLType)
  {
    forall i :: 0 <= i < |t.fields| ==> t.fields[i].fieldType.Named?
  }

  /** A shape as the walk met it, apart from its name and field types. */
  datatype Shape = Shape(path: seq<string>, kind: GQLObjectType, fieldNames: seq<string>)

  function FieldNames(fields: seq<GQLField>): (r: seq<string>)
    ensures |r| == |fields| && forall i :: 0 <= i < |fields| ==> r[i] == fields[i].name
  {
    seq(|fields|, i requires 0 <= i < |fields| => fields[i].name)
  }

  function ShapeOf(t: GQLType): Shape
  {
    Shape(t.path, t.kind, FieldNames(t.fields))
  }

  function Shapes(ts: seq<GQLType>): (r: seq<Shape>)
    ensures |r| == |ts| && forall i :: 0 <= i < |ts| ==> r[i] == ShapeOf(ts[i])
  {
    seq(|ts|, i requires 0 <= i < |ts| => ShapeOf(ts[i]))
  }

  lemma ShapesAppend(a: seq<GQLType>, b: seq<GQLType>)
    ensures Shapes(a + b) == Shapes(a) + Shapes(b)
  {
  }

  /** A shape followed by the shapes nested in its fields, depth first, in field order. */
  function PreOrder(t: GQLType): (r: seq<GQLType>)
    ensures |r| >= 1 && r[0] == t
    decreases t
  {
    [t] + NestedPreOrder(t.fields)
  }

  function NestedPreOrder(fields: seq<GQLField>): seq<GQLType>
    decreases fields
  {
    if fields == [] then []
    else
      var n := |fields| - 1;
      NestedPreOrder(fields[..n]) +
      (if fields[n].fieldType.Nested? then PreOrder(fields[n].fieldType.gqlType) else [])
  }

  /**
   * `deduplicateGQLType`: the shape renamed, with its nested shapes replaced
   * by their names, followed by the nested shapes deduplicated the same way;
   * and the registry after all of them.
   */
  function Deduplicated(types: Registry, gqlType: GQLType): (r: (seq<GQLType>, Registry))
    ensures |r.0| >= 1 && r.0[0].name == NameChoice(types, gqlType).0
    decreases gqlType
  {
    var choice := NameChoice(types, gqlType);
    var below := DeduplicatedFields(choice.1, gqlType.fields);
    ([gqlType.(name := choice.0, fields := below.0)] + below.1, below.2)
  }

  /** The fields of one shape, each nested shape deduplicated in turn and replaced by its name. */
  function DeduplicatedFields(types: Registry, fields: seq<GQLField>): (r: (seq<GQLField>, seq<GQLType>, Registry))
    ensures |r.0| == |fields|
    decreases fields
  {
    if fields == [] then ([], [], types)
    else
      var n := |fields| - 1;
      var prefix := DeduplicatedFields(types, fields[..n]);
      var last := DeduplicatedField(prefix.2, fields[n]);
      (prefix.0 + [last.0], prefix.1 + last.1, last.2)
  }

  /** The shapes nested in one field: the pre-order of its shape, or none. */
  function NestedOf(field: GQLField): seq<GQLType>
  {
    if field.fieldType.Nested? then PreOrder(field.fieldType.gqlType) else []
  }

  /** `out` is `field` with, at most, its nested shape replaced. */
  predicate KeepsAllButNested(out: GQLField, field: GQLField)
  {
    && out.name == field.name && out.schemaType == field.schemaType
    && out.isNonNull == field.isNonNull && out.isArray == field.isArray
    && (field.fieldType.Named? ==> out.fieldType == field.fieldType)
  }

  /** One field: a nested shape is deduplicated and the field refers to it by name. */
  function DeduplicatedField(types: Registry, field: GQLField): (r: (GQLField, seq<GQLType>, Registry))
    ensures r.0.fieldType.Named?
    ensures KeepsAllButNested(r.0, field)
    ensures field.fieldType.Nested? ==> |r.1| >= 1 && r.0.fieldType == Named(r.1[0].name)
    decreases field
  {
    if field.fieldType.Nested? then
      var sub := Deduplicated(types, field.fieldType.gqlType);
      (field.(fieldType := Named(sub.0[0].name)), sub.0, sub.1)
    else (field, [], types)
  }

  /** Every field comes out referring to its shape by name, and otherwise as it was. */
  lemma {:induction false} DeduplicatedFieldsKeep(types: Registry, fields: seq<GQLField>)
    ensures var r := DeduplicatedFields(types, fields);
            forall i :: 0 <= i < |fields| ==> r.0[i].fieldType.Named? && KeepsAllButNested(r.0[i], fields[i])
    decreases fields
  {
    if fields != [] {
      var n := |fields| - 1;
      var prefix := DeduplicatedFields(types, fields[..n]);
      DeduplicatedFieldsKeep(types, fields[..n]);
      var last := DeduplicatedField(prefix.2, fields[n]);
      assert DeduplicatedFields(types, fields).0 == prefix.0 + [last.0];
      assert forall i :: 0 <= i < n ==> fields[..n][i] == fields[i];
    }
  }

  /**
   * A field that held a nested shape now names the first shape output for it,
   * which follows the shapes nested in the fields before it.
   */
  lemma {:induction false} DeduplicatedFieldsRefer(types: Registry, fields: seq<GQLField>)
    ensures var r := DeduplicatedFields(types, fields);
            forall i :: 0 <= i < |fields| && fields[i].fieldType.Nested? ==>
              |NestedPreOrder(fields[..i])| < |r.1| &&
              r.0[i].fieldType == Named(r.1[|NestedPreOrder(fields[..i])|].name)
    decreases fields
  {
    if fields != [] {
      var n := |fields| - 1;
      var prefix := DeduplicatedFields(types, fields[..n]);
      DeduplicatedFieldsRefer(types, fields[..n]);
      DeduplicatedFieldsShapes(types, fields[..n]);
      var last := DeduplicatedField(prefix.2, fields[n]);
      var r := DeduplicatedFields(types, fields);
      assert r == (prefix.0 + [last.0], prefix.1 + last.1, last.2);
      forall i | 0 <= i < |fields| && fields[i].fieldType.Nested?
        ensures |NestedPreOrder(fields[..i])| < |r.1| && r.0[i].fieldType == Named(r.1[|NestedPreOrder(fields[..i])|].name)
      {
        if i < n {
          assert fields[..n][..i] == fields[..i];
          assert fields[..n][i] == fields[i];
          assert r.0[i] == prefix.0[i];
          var k := |NestedPreOrder(fields[..i])|;
          assert r.1[k] == prefix.1[k];
        } else {
          assert fields[..i] == fields[..n];
          assert |prefix.1| == |NestedPreOrder(fields[..n])|;
          assert r.1[|prefix.1|] == last.1[0];
        }
      }
    }
  }

  /** Deduplication outputs the shapes the walk met, in pre-order, apart from their names and field types. */
  lemma {:induction false} DeduplicatedShapes(types: Registry, gqlType: GQLType)
    ensures Shapes(Deduplicated(types, gqlType).0) == Shapes(PreOrder(gqlType))
    decreases gqlType
  {
    var choice := NameChoice(types, gqlType);
    var below := DeduplicatedFields(choice.1, gqlType.fields);
    DeduplicatedFieldsKeep(choice.1, gqlType.fields);
    DeduplicatedFieldsShapes(choice.1, gqlType.fields);
    var head := gqlType.(name := choice.0, fields := below.0);
    assert FieldNames(below.0) == FieldNames(gqlType.fields);
    calc {
      Shapes(Deduplicated(types, gqlType).0);
      Shapes([head] + below.1);
      { ShapesAppend([head], below.1); }
      Shapes([head]) + Shapes(below.1);
      { assert ShapeOf(head) == ShapeOf(gqlType); }
      Shapes([gqlType]) + Shapes(NestedPreOrder(gqlType.fields));
      { ShapesAppend([gqlType], NestedPreOrder(gqlType.fields)); }
      Shapes(PreOrder(gqlType));
    }
  }

  lemma {:induction false} DeduplicatedFieldsShapes(types: Registry, fields: seq<GQLField>)
    ensures Shapes(DeduplicatedFields(types, fields).1) == Shapes(NestedPreOrder(fields))
    decreases fields
  {
    if fields != [] {
      var n := |fields| - 1;
      var prefix := DeduplicatedFields(types, fields[..n]);
      DeduplicatedFieldsShapes(types, fields[..n]);
      var last := DeduplicatedField(prefix.2, fields[n]);
      if fields[n].fieldType.Nested? {
        DeduplicatedShapes(prefix.2, fields[n].fieldType.gqlType);
      }
      assert Shapes(last.1) == Shapes(NestedOf(fields[n]));
      assert DeduplicatedFields(types, fields).1 == prefix.1 + last.1;
      assert NestedPreOrder(fields) == NestedPreOrder(fields[..n]) + NestedOf(fields[n]);
      ShapesAppend(prefix.1, last.1);
      ShapesAppend(NestedPreOrder(fields[..n]), NestedOf(fields[n]));
    }
  }

  /** Every shape deduplication outputs refers to the others by name. */
  lemma {:induction false} DeduplicatedFlat(types: Registry, gqlType: GQLType)
    ensures var out := Deduplicated(types, gqlType).0;
            forall i :: 0 <= i < |out| ==> Flat(out[i])
    decreases gqlType
  {
    var choice := NameChoice(types, gqlType);
    var below := DeduplicatedFields(choice.1, gqlType.fields);
    DeduplicatedFieldsKeep(choice.1, gqlType.fields);
    DeduplicatedFieldsFlat(choice.1, gqlType.fields);
    var head := gqlType.(name := choice.0, fields := below.0);
    var out := [head] + below.1;
    assert Deduplicated(types, gqlType).0 == out;
    assert Flat(head);
    assert forall i :: 1 <= i < |out| ==> out[i] == below.1[i - 1];
  }

  lemma {:induction false} DeduplicatedFieldsFlat(types: Registry, fields: seq<GQLField>)
    ensures var nested := DeduplicatedFields(types, fields).1;
            forall i :: 0 <= i < |nested| ==> Flat(nested[i])
    decreases fields
  {
    if fields != [] {
      var n := |fields| - 1;
      var prefix := DeduplicatedFields(types, fields[..n]);
      DeduplicatedFieldsFlat(types, fields[..n]);
      assert forall i :: 0 <= i < |DeduplicatedFields(types, fields[..n]).1| ==> Flat(DeduplicatedFields(types, fields[..n]).1[i]);
      var last := DeduplicatedField(prefix.2, fields[n]);
      if fields[n].fieldType.Nested? {
        DeduplicatedFlat(prefix.2, fields[n].fieldType.gqlType);
        assert last.1 == Deduplicated(prefix.2, fields[n].fieldType.gqlType).0;
      }
      assert forall i :: 0 <= i < |last.1| ==> Flat(last.1[i]);
      var nested := prefix.1 + last.1;
      assert DeduplicatedFields(types, fields).1 == nested;
      forall i | 0 <= i < |nested| ensures Flat(nested[i]) {
        if i < |prefix.1| {
          assert nested[i] == prefix.1[i];
          assert Flat(prefix.1[i]);
        } else {
          assert nested[i] == last.1[i - |prefix.1|];
          assert Flat(last.1[i - |prefix.1|]);
        }
      }
    }
  }

  lemma SameFieldNames(a: seq<GQLField>, b: seq<GQLField>)
    requires FieldNames(a) == FieldNames(b)
    ensures FieldNameSet(a) == FieldNameSet(b)
  {
    forall n | n in FieldNameSet(a) ensures n in FieldNameSet(b) {
      var f :| f in a && f.name == n;
      var i :| 0 <= i < |a| && a[i] == f;
      assert b[i] in b && FieldNames(b)[i] == n;
    }
    forall n | n in FieldNameSet(b) ensures n in FieldNameSet(a) {
      var f :| f in b && f.name == n;
      var i :| 0 <= i < |b| && b[i] == f;
      assert a[i] in a && FieldNames(a)[i] == n;
    }
  }

  /**
   * Deduplication keeps the registry valid, only adds to it, and registers the
   * content key of every shape it outputs.
   */
  lemma {:induction false} DeduplicatedRegisters(types: Registry, gqlType: GQLType)
    requires Valid(types)
    ensures var r := Deduplicated(types, gqlType);
            && Valid(r.1) && Grows(types, r.1)
            && forall i :: 0 <= i < |r.0| ==> IdKey(GenerateGQLTypeId(r.0[i])) in r.1
    decreases gqlType
  {
    var choice := NameChoice(types, gqlType);
    NameChoiceSpec(types, gqlType);
    var below := DeduplicatedFields(choice.1, gqlType.fields);
    DeduplicatedFieldsRegister(choice.1, gqlType.fields);
    DeduplicatedFieldsKeep(choice.1, gqlType.fields);
    assert FieldNames(below.0) == FieldNames(gqlType.fields);
    SameFieldNames(below.0, gqlType.fields);
    assert GenerateGQLTypeId(gqlType.(name := choice.0, fields := below.0)) == GenerateGQLTypeId(gqlType.(name := choice.0));
  }

  lemma {:induction false} DeduplicatedFieldsRegister(types: Registry, fields: seq<GQLField>)
    requires Valid(types)
    ensures var r := DeduplicatedFields(types, fields);
            && Valid(r.2) && Grows(types, r.2)
            && forall i :: 0 <= i < |r.1| ==> IdKey(GenerateGQLTypeId(r.1[i])) in r.2
    decreases fields
  {
    if fields != [] {
      var n := |fields| - 1;
      var prefix := DeduplicatedFields(types, fields[..n]);
      DeduplicatedFieldsRegister(types, fields[..n]);
      var last := DeduplicatedField(prefix.2, fields[n]);
      if fields[n].fieldType.Nested? {
        DeduplicatedRegisters(prefix.2, fields[n].fieldType.gqlType);
      }
      assert Valid(last.2) && Grows(prefix.2, last.2);
      assert forall i :: 0 <= i < |last.1| ==> IdKey(GenerateGQLTypeId(last.1[i])) in last.2;
      assert DeduplicatedFields(types, fields) == (prefix.0 + [last.0], prefix.1 + last.1, last.2);
    }
  }

  /** `deduplicateGQLTypes` before its last step: every shape deduplicated in turn, on one registry. */
  function DeduplicatedAll(types: Registry, gqlTypes: seq<GQLType>): (r: (seq<GQLType>, Registry))
    ensures forall i :: 0 <= i < |r.0| ==> Flat(r.0[i])
    ensures Shapes(r.0) == Shapes(AllPreOrder(gqlTypes))
    decreases |gqlTypes|
  {
    if gqlTypes == [] then ([], types)
    else
      var n := |gqlTypes| - 1;
      var done := DeduplicatedAll(types, gqlTypes[..n]);
      var out := Deduplicated(done.1, gqlTypes[n]);
      DeduplicatedShapes(done.1, gqlTypes[n]);
      DeduplicatedFlat(done.1, gqlTypes[n]);
      ShapesAppend(done.0, out.0);
      ShapesAppend(AllPreOrder(gqlTypes[..n]), PreOrder(gqlTypes[n]));
      (done.0 + out.0, out.1)
  }

  /** Every shape of the list, each followed by its nested shapes. */
  function AllPreOrder(gqlTypes: seq<GQLType>): seq<GQLType>
  {
    if gqlTypes == [] then []
    else AllPreOrder(gqlTypes[..|gqlTypes| - 1]) + PreOrder(gqlTypes[|gqlTypes| - 1])
  }

  /**
   * `deduplicateGQLTypes` with a fresh registry: the deduplicated shapes, one
   * per content key, at the position of the key's first shape and holding its last.
   */
  function DeduplicatedTypes(gqlTypes: seq<GQLType>): (r: seq<GQLType>)
    ensures Distinct(MapKeys(r, GenerateGQLTypeId))
    ensures forall i :: 0 <= i < |r| ==> Flat(r[i])
    ensures var all := DeduplicatedAll(map[], gqlTypes).0;
            && (forall i :: 0 <= i < |all| ==> GenerateGQLTypeId(all[i]) in MapKeys(r, GenerateGQLTypeId))
            && (forall i :: 0 <= i < |r| ==>
                  GenerateGQLTypeId(r[i]) in MapKeys(all, GenerateGQLTypeId) &&
                  r[i] == all[LastIndex(MapKeys(all, GenerateGQLTypeId), GenerateGQLTypeId(r[i]))])
            && (forall i, j :: 0 <= i < j < |r| ==>
                  GenerateGQLTypeId(r[i]) in MapKeys(all, GenerateGQLTypeId) &&
                  GenerateGQLTypeId(r[j]) in MapKeys(all, GenerateGQLTypeId) &&
                  FirstIndex(MapKeys(all, GenerateGQLTypeId), GenerateGQLTypeId(r[i])) <
                  FirstIndex(MapKeys(all, GenerateGQLTypeId), GenerateGQLTypeId(r[j])))
  {
    var all := DeduplicatedAll(map[], gqlTypes).0;
    LastByKeySpec(all, GenerateGQLTypeId);
    LastByKey(all, GenerateGQLTypeId)
  }

  /**
   * `extractGQLTypes`: for an operation, the `RequestType` shape rooted at
   * `variables` and the operation's shape rooted at its keyword, deduplicated;
   * nothing for any other definition.
   */
  function ExtractedTypes(schema: Schema, def: Definition, fuel: nat): (r: Result<seq<GQLType>>)
    ensures !def.OperationDef? ==> r == Success([])
    ensures r.Success? ==> forall i :: 0 <= i < |r.value| ==> Flat(r.value[i])
    ensures r.Success? ==> Distinct(MapKeys(r.value, GenerateGQLTypeId))
    ensures def.OperationDef? && r.Success? ==>
              && r.value != [] && r.value[0].name == "RequestType"
              && (r.value[0].fields == [] <==> def.variableDefinitions == [])
  {
    if !def.OperationDef? then Success([])
    else
      var input := ExtractInputType(def.variableDefinitions, Context(schema, ["variables"], true), fuel);
      var keyword := OperationKeyword(def.operation);
      if input.Failure? then Failure(input.error)
      else
        var operation := ExtractGQLType(keyword, SelectionSet(def.selections), Context(schema, [keyword], false), fuel);
        if operation.Failure? then Failure(operation.error)
        else
          DeduplicatedTypesFirst([input.value, operation.value]);
          Success(DeduplicatedTypes([input.value, operation.value]))
  }

  /** The first shape of the list comes out first, under its own name, with fields exactly when it had some. */
  lemma DeduplicatedTypesFirst(gqlTypes: seq<GQLType>)
    requires gqlTypes != []
    ensures var r := DeduplicatedTypes(gqlTypes);
            && r != [] && r[0].name == gqlTypes[0].name
            && (r[0].fields == [] <==> gqlTypes[0].fields == [])
  {
    var all := DeduplicatedAll(map[], gqlTypes).0;
    var r := DeduplicatedTypes(gqlTypes);
    FirstShapeKeepsName(gqlTypes);
    var keys := MapKeys(all, GenerateGQLTypeId);
    var first := GenerateGQLTypeId(all[0]);
    assert FirstIndex(keys, first) == 0;
    assert first in MapKeys(r, GenerateGQLTypeId);
    forall m | 0 < m < |r| ensures GenerateGQLTypeId(r[m]) != first {
      assert FirstIndex(keys, GenerateGQLTypeId(r[0])) < FirstIndex(keys, GenerateGQLTypeId(r[m]));
    }
    assert GenerateGQLTypeId(r[0]) == first;
    FieldNameSetEmpty(r[0].fields);
    FieldNameSetEmpty(all[0].fields);
  }

  lemma FieldNameSetEmpty(fields: seq<GQLField>)
    ensures FieldNameSet(fields) == {} <==> fields == []
  {
    if fields != [] {
      assert fields[0].name in FieldNameSet(fields);
    }
  }

  /** The type names the shapes already refer to by name, at any depth. */
  function NamedRefs(t: GQLType): set<string>
    decreases t
  {
    NamedRefsOfFields(t.fields)
  }

  function NamedRefsOfFields(fields: seq<GQLField>): set<string>
    decreases fields
  {
    if fields == [] then {}
    else
      var n := |fields| - 1;
      NamedRefsOfFields(fields[..n]) +
      (match fields[n].fieldType
       case Named(name) => {name}
       case Nested(gqlType) => NamedRefs(gqlType))
  }

  function AllNamedRefs(gqlTypes: seq<GQLType>): set<string>
  {
    if gqlTypes == [] then {}
    else AllNamedRefs(gqlTypes[..|gqlTypes| - 1]) + NamedRefs(gqlTypes[|gqlTypes| - 1])
  }

  function NameSet(ts: seq<GQLType>): set<string>
  {
    set t | t in ts :: t.name
  }

  /** Every field of `out` that refers to a type by name refers to one of `names`. */
  ghost predicate RefersWithin(out: seq<GQLType>, names: set<string>)
  {
    forall i, k :: 0 <= i < |out| && 0 <= k < |out[i].fields| && out[i].fields[k].fieldType.Named? ==>
      out[i].fields[k].fieldType.typeName in names
  }

  lemma RefersWithinAppend(a: seq<GQLType>, b: seq<GQLType>, names: set<string>, names': set<string>)
    requires RefersWithin(a, names) && RefersWithin(b, names) && names <= names'
    ensures RefersWithin(a + b, names')
  {
    forall i, k | 0 <= i < |a + b| && 0 <= k < |(a + b)[i].fields| && (a + b)[i].fields[k].fieldType.Named?
      ensures (a + b)[i].fields[k].fieldType.typeName in names'
    {
      if i < |a| {
        assert (a + b)[i] == a[i];
      } else {
        assert (a + b)[i] == b[i - |a|];
      }
    }
  }

  /**
   * Every field deduplication gives a name refers to a shape it output, unless
   * the field already named its type (a scalar or an enum value).
   */
  lemma {:induction false} DeduplicatedResolves(types: Registry, gqlType: GQLType)
    ensures var out := Deduplicated(types, gqlType).0;
            RefersWithin(out, NameSet(out) + NamedRefs(gqlType))
    decreases gqlType
  {
    var choice := NameChoice(types, gqlType);
    var below := DeduplicatedFields(choice.1, gqlType.fields);
    DeduplicatedFieldsResolve(choice.1, gqlType.fields);
    var head := gqlType.(name := choice.0, fields := below.0);
    var out := [head] + below.1;
    assert Deduplicated(types, gqlType).0 == out;
    var names := NameSet(below.1) + NamedRefs(gqlType);
    assert RefersWithin([head], names);
    assert NameSet(below.1) <= NameSet(out);
    RefersWithinAppend([head], below.1, names, NameSet(out) + NamedRefs(gqlType));
  }

  lemma {:induction false} DeduplicatedFieldsResolve(types: Registry, fields: seq<GQLField>)
    ensures var r := DeduplicatedFields(types, fields);
            && (forall k :: 0 <= k < |r.0| && r.0[k].fieldType.Named? ==>
                  r.0[k].fieldType.typeName in NameSet(r.1) + NamedRefsOfFields(fields))
            && RefersWithin(r.1, NameSet(r.1) + NamedRefsOfFields(fields))
    decreases fields
  {
    if fields != [] {
      var n := |fields| - 1;
      var prefix := DeduplicatedFields(types, fields[..n]);
      DeduplicatedFieldsResolve(types, fields[..n]);
      var last := DeduplicatedField(prefix.2, fields[n]);
      var r := DeduplicatedFields(types, fields);
      assert r == (prefix.0 + [last.0], prefix.1 + last.1, last.2);
      var names := NameSet(r.1) + NamedRefsOfFields(fields);
      assert NameSet(prefix.1) <= NameSet(r.1) && NameSet(last.1) <= NameSet(r.1);
      assert NamedRefsOfFields(fields[..n]) <= NamedRefsOfFields(fields);
      if fields[n].fieldType.Nested? {
        var g := fields[n].fieldType.gqlType;
        DeduplicatedResolves(prefix.2, g);
        assert last.1 == Deduplicated(prefix.2, g).0;
        assert NamedRefs(g) <= NamedRefsOfFields(fields);
        assert last.1[0] in last.1;
      } else {
        assert last.1 == [];
      }
      assert RefersWithin(last.1, names);
      RefersWithinAppend(prefix.1, last.1, names, names);
      forall k | 0 <= k < |r.0| && r.0[k].fieldType.Named?
        ensures r.0[k].fieldType.typeName in names
      {
        if k < n {
          assert r.0[k] == prefix.0[k];
        }
      }
    }
  }

  lemma {:induction false} DeduplicatedAllResolves(types: Registry, gqlTypes: seq<GQLType>)
    ensures var out := DeduplicatedAll(types, gqlTypes).0;
            RefersWithin(out, NameSet(out) + AllNamedRefs(gqlTypes))
    decreases |gqlTypes|
  {
    if gqlTypes != [] {
      var n := |gqlTypes| - 1;
      var done := DeduplicatedAll(types, gqlTypes[..n]);
      DeduplicatedAllResolves(types, gqlTypes[..n]);
      var out := Deduplicated(done.1, gqlTypes[n]);
      DeduplicatedResolves(done.1, gqlTypes[n]);
      var all := done.0 + out.0;
      assert DeduplicatedAll(types, gqlTypes).0 == all;
      var names := NameSet(all) + AllNamedRefs(gqlTypes);
      assert NameSet(done.0) <= NameSet(all) && NameSet(out.0) <= NameSet(all);
      RefersWithinAppend(done.0, out.0, names, names);
    }
  }

  /**
   * After deduplication every field that refers to a type by name refers to a
   * shape of the output, unless the field already named its type before.
   */
  lemma DeduplicatedTypesResolve(gqlTypes: seq<GQLType>)
    ensures var r := DeduplicatedTypes(gqlTypes);
            RefersWithin(r, NameSet(r) + AllNamedRefs(gqlTypes))
  {
    var all := DeduplicatedAll(map[], gqlTypes).0;
    var r := DeduplicatedTypes(gqlTypes);
    DeduplicatedAllResolves(map[], gqlTypes);
    DeduplicatedTypesKeepNames(gqlTypes);
    DeduplicatedTypesFromAll(gqlTypes);
    RefersWithinElements(r, all, NameSet(all) + AllNamedRefs(gqlTypes), NameSet(r) + AllNamedRefs(gqlTypes));
  }

  /** Every shape of the final list is one of the deduplicated shapes. */
  lemma DeduplicatedTypesFromAll(gqlTypes: seq<GQLType>)
    ensures forall t :: t in DeduplicatedTypes(gqlTypes) ==> t in DeduplicatedAll(map[], gqlTypes).0
  {
    var all := DeduplicatedAll(map[], gqlTypes).0;
    var r := DeduplicatedTypes(gqlTypes);
    forall i | 0 <= i < |r| ensures r[i] in all {
      var j := LastIndex(MapKeys(all, GenerateGQLTypeId), GenerateGQLTypeId(r[i]));
      assert r[i] == all[j];
    }
  }

  lemma RefersWithinElements(out: seq<GQLType>, from: seq<GQLType>, names: set<string>, names': set<string>)
    requires RefersWithin(from, names) && names <= names'
    requires forall t :: t in out ==> t in from
    ensures RefersWithin(out, names')
  {
    forall i, k | 0 <= i < |out| && 0 <= k < |out[i].fields| && out[i].fields[k].fieldType.Named?
      ensures out[i].fields[k].fieldType.typeName in names'
    {
      assert out[i] in from;
      var j :| 0 <= j < |from| && from[j] == out[i];
    }
  }

  /** Every name deduplication gave a shape survives in the final list. */
  lemma DeduplicatedTypesKeepNames(gqlTypes: seq<GQLType>)
    ensures NameSet(DeduplicatedAll(map[], gqlTypes).0) <= NameSet(DeduplicatedTypes(gqlTypes))
  {
    NamesOfCoveringKeys(DeduplicatedAll(map[], gqlTypes).0, DeduplicatedTypes(gqlTypes));
  }

  /** Content keys hold the name, so a list holding every key of another holds every name of it. */
  lemma NamesOfCoveringKeys(all: seq<GQLType>, r: seq<GQLType>)
    requires forall i :: 0 <= i < |all| ==> GenerateGQLTypeId(all[i]) in MapKeys(r, GenerateGQLTypeId)
    ensures NameSet(all) <= NameSet(r)
  {
    var rKeys := MapKeys(r, GenerateGQLTypeId);
    forall j | 0 <= j < |all| ensures all[j].name in NameSet(r) {
      var key := GenerateGQLTypeId(all[j]);
      var m := FirstIndex(rKeys, key);
      assert r[m] in r && r[m].name == key.name;
    }
  }

  /**
   * On extraction's output, every field that refers to a type by name refers
   * to one of the output shapes, unless the walk itself gave it that name.
   */
  lemma ExtractedTypesResolve(schema: Schema, def: Definition, fuel: nat)
    requires def.OperationDef?
    requires ExtractedTypes(schema, def, fuel).Success?
    ensures var input := ExtractInputType(def.variableDefinitions, Context(schema, ["variables"], true), fuel);
            var keyword := OperationKeyword(def.operation);
            var operation := ExtractGQLType(keyword, SelectionSet(def.selections), Context(schema, [keyword], false), fuel);
            var r := ExtractedTypes(schema, def, fuel).value;
            input.Success? && operation.Success? &&
            RefersWithin(r, NameSet(r) + NamedRefs(input.value) + NamedRefs(operation.value))
  {
    var input := ExtractInputType(def.variableDefinitions, Context(schema, ["variables"], true), fuel);
    var keyword := OperationKeyword(def.operation);
    var operation := ExtractGQLType(keyword, SelectionSet(def.selections), Context(schema, [keyword], false), fuel);
    var gqlTypes := [input.value, operation.value];
    assert ExtractedTypes(schema, def, fuel).value == DeduplicatedTypes(gqlTypes);
    DeduplicatedTypesResolve(gqlTypes);
    AllNamedRefsOfTwo(input.value, operation.value);
  }

  lemma AllNamedRefsOfTwo(a: GQLType, b: GQLType)
    ensures AllNamedRefs([a, b]) == NamedRefs(a) + NamedRefs(b)
  {
    assert [a, b][..1] == [a];
    assert [a][..0] == [];
    calc {
      AllNamedRefs([a, b]);
      AllNamedRefs([a]) + NamedRefs(b);
      AllNamedRefs([]) + NamedRefs(a) + NamedRefs(b);
    }
  }

  /** On a fresh registry, the first shape of the list keeps its own name. */
  lemma {:induction false} FirstShapeKeepsName(gqlTypes: seq<GQLType>)
    requires gqlTypes != []
    ensures var out := DeduplicatedAll(map[], gqlTypes).0;
            |out| >= 1 && out[0].name == gqlTypes[0].name && |out[0].fields| == |gqlTypes[0].fields|
    decreases |gqlTypes|
  {
    var n := |gqlTypes| - 1;
    if n == 0 {
      assert gqlTypes[..n] == [];
      NameChoiceSpec(map[], gqlTypes[0]);
    } else {
      assert gqlTypes[..n][0] == gqlTypes[0];
      FirstShapeKeepsName(gqlTypes[..n]);
      var done := DeduplicatedAll(map[], gqlTypes[..n]).0;
      assert DeduplicatedAll(map[], gqlTypes).0[0] == done[0];
    }
  }

  /** `context.types`, shared by every call of one `deduplicateGQLTypes`. */
  class TypeRegistry {
    var types: Registry

    constructor ()
      ensures types == map[]
    {
      types := map[];
    }

    method DeduplicateGQLTypeName(gqlType: GQLType) returns (name: string)
      modifies this
      ensures (name, types) == NameChoice(old(types), gqlType)
    {
      var id := GenerateGQLTypeId(gqlType);
      if IdKey(id) in types {
        return types[IdKey(id)];
      }
      if NameKey(gqlType.name) !in types {
        types := types[NameKey(gqlType.name) := gqlType.name][IdKey(id) := gqlType.name];
        return gqlType.name;
      }
      name := NextFreeName(gqlType, types);
      var newId := GenerateGQLTypeId(gqlType.(name := name));
      types := types[NameKey(name) := name][IdKey(newId) := name];
    }

    method DeduplicateGQLType(gqlType: GQLType) returns (r: seq<GQLType>)
      modifies this
      ensures (r, types) == Deduplicated(old(types), gqlType)
      decreases gqlType
    {
      var gqlTypes: seq<GQLType> := [];
      var name := DeduplicateGQLTypeName(gqlType);
      ghost var named := types;
      var fields: seq<GQLField> := [];
      var i := 0;
      while i < |gqlType.fields|
        invariant 0 <= i <= |gqlType.fields|
        invariant (fields, gqlTypes, types) == DeduplicatedFields(named, gqlType.fields[..i])
      {
        assert gqlType.fields[..i + 1][..i] == gqlType.fields[..i];
        var field, nested := DeduplicateGQLField(gqlType.fields[i]);
        fields := fields + [field];
        gqlTypes := gqlTypes + nested;
        i := i + 1;
      }
      assert gqlType.fields[..i] == gqlType.fields;
      r := [gqlType.(name := name, fields := fields)] + gqlTypes;
    }

    /** One field of the loop in `deduplicateGQLType`: a nested shape is deduplicated and referred to by name. */
    method DeduplicateGQLField(field: GQLField) returns (r: GQLField, nested: seq<GQLType>)
      modifies this
      ensures (r, nested, types) == DeduplicatedField(old(types), field)
      decreases field
    {
      if field.fieldType.Nested? {
        nested := DeduplicateGQLType(field.fieldType.gqlType);
        r := field.(fieldType := Named(nested[0].name));
      } else {
        r, nested := field, [];
      }
    }
  }

  /**
   * The renaming walk of `deduplicateGQLTypeName`: path suffixes from the
   * last segment outwards, then counters 1 to 100, until a name is free.
   */
  method NextFreeName(gqlType: GQLType, registry: Registry) returns (name: string)
    requires NameKey(gqlType.name) in registry
    ensures name == PickName(Candidates(gqlType), registry)
  {
    var length := |gqlType.path|;
    name := gqlType.name;
    var counter := 1;
    var index := length - 1;
    while NameKey(name) in registry && counter <= 100
      invariant -1 <= index < length && 1 <= counter <= 101
      invariant index >= 0 ==> counter == 1
      invariant Walking(gqlType, registry, index, counter, name)
      decreases index + 1 + 101 - counter
    {
      WalkStep(gqlType, registry, index, counter, name);
      name := NextCandidate(gqlType, index, counter);
      if index >= 0 {
        index := index - 1;
      } else {
        counter := counter + 1;
      }
    }
    WalkDone(gqlType, registry, index, counter, name);
  }

  /** How many candidates the walk has tried once it reached `index` and `counter`. */
  function Tried(gqlType: GQLType, index: int, counter: int): int
  {
    |gqlType.path| - 1 - index + counter - 1
  }

  /**
   * The state of the renaming walk: `name` is the last candidate tried (or
   * the type's own name before the first step), and every candidate tried
   * before it was already claimed.
   */
  ghost predicate Walking(gqlType: GQLType, registry: Registry, index: int, counter: int, name: string)
  {
    var k := Tried(gqlType, index, counter);
    && 0 <= k <= |gqlType.path| + 100
    && (k == 0 ==> name == gqlType.name)
    && (k > 0 ==> name == Candidates(gqlType)[k - 1] && Claimed(Candidates(gqlType), registry, k - 1))
  }

  /** One step of the walk tries the next candidate. */
  lemma WalkStep(gqlType: GQLType, registry: Registry, index: int, counter: int, name: string)
    requires -1 <= index < |gqlType.path| && 1 <= counter <= 100
    requires index >= 0 ==> counter == 1
    requires NameKey(name) in registry
    requires Walking(gqlType, registry, index, counter, name)
    ensures var next := NextCandidate(gqlType, index, counter);
      if index >= 0 then Walking(gqlType, registry, index - 1, counter, next)
      else Walking(gqlType, registry, index, counter + 1, next)
  {
    var candidates := Candidates(gqlType);
    var k := Tried(gqlType, index, counter);
    assert Claimed(candidates, registry, k) by {
      if k > 0 {
        ClaimedNext(candidates, registry, k - 1);
      }
    }
    var next := NextCandidate(gqlType, index, counter);
    assert next == candidates[k];
    if index >= 0 {
      assert Tried(gqlType, index - 1, counter) == k + 1;
    } else {
      assert Tried(gqlType, index, counter + 1) == k + 1;
    }
  }

  /** The walk stops on the first free candidate, or on the last one. */
  lemma WalkDone(gqlType: GQLType, registry: Registry, index: int, counter: int, name: string)
    requires -1 <= index < |gqlType.path| && 1 <= counter <= 101
    requires index >= 0 ==> counter == 1
    requires NameKey(gqlType.name) in registry
    requires Walking(gqlType, registry, index, counter, name)
    requires !(NameKey(name) in registry && counter <= 100)
    ensures name == PickName(Candidates(gqlType), registry)
  {
    var k := Tried(gqlType, index, counter);
    if k == 0 {
      assert false;
    }
    PickNameAt(Candidates(gqlType), registry, k - 1);
  }

  /** The name tried at one step of the walk: the path suffix from `index`, or the counter once the path is used up. */
  function NextCandidate(gqlType: GQLType, index: int, counter: nat): (r: string)
    requires -1 <= index < |gqlType.path| && 1 <= counter <= 100
    requires index >= 0 ==> counter == 1
    ensures r == Candidates(gqlType)[|gqlType.path| - 1 - index + counter - 1]
  {
    if index >= 0 then
      assert |gqlType.path| - 1 - index + counter - 1 == |gqlType.path| - 1 - index;
      PathCandidateAt(gqlType, index);
      PathCandidate(gqlType.path, gqlType.name, index)
    else
      assert |gqlType.path| - 1 - index + counter - 1 == |gqlType.path| + counter - 1;
      CounterCandidateAt(gqlType, counter);
      CounterCandidate(gqlType.name, counter)
  }

  /** Every one of the first `k` candidates is already claimed. */
  predicate Claimed(candidates: seq<string>, types: Registry, k: nat)
  {
    k <= |candidates| && forall j :: 0 <= j < k ==> NameKey(candidates[j]) in types
  }

  lemma ClaimedNext(candidates: seq<string>, types: Registry, k: nat)
    requires Claimed(candidates, types, k) && k < |candidates| && NameKey(candidates[k]) in types
    ensures Claimed(candidates, types, k + 1)
  {
  }

  /** The first candidates are the path suffixes, the longest last. */
  lemma PathCandidateAt(gqlType: GQLType, index: nat)
    requires index < |gqlType.path|
    ensures Candidates(gqlType)[|gqlType.path| - 1 - index] == PathCandidate(gqlType.path, gqlType.name, index)
  {
    var p := PathCandidates(gqlType.path, gqlType.name);
    assert Candidates(gqlType)[|gqlType.path| - 1 - index] == p[|gqlType.path| - 1 - index];
  }

  /** After the path suffixes come the names numbered 1 to 100. */
  lemma CounterCandidateAt(gqlType: GQLType, counter: nat)
    requires 1 <= counter <= 100
    ensures Candidates(gqlType)[|gqlType.path| + counter - 1] == CounterCandidate(gqlType.name, counter)
  {
    var c := CounterCandidates(gqlType.name);
    assert Candidates(gqlType)[|gqlType.path| + counter - 1] == c[counter - 1];
  }

  lemma PickNameAt(candidates: seq<string>, types: Registry, k: nat)
    requires k < |candidates|
    requires Claimed(candidates, types, k)
    requires NameKey(candidates[k]) !in types || k == |candidates| - 1
    ensures PickName(candidates, types) == candidates[k]
  {
    if k > 0 {
      assert Claimed(candidates[1..], types, k - 1) by {
        forall j | 0 <= j < k - 1 ensures NameKey(candidates[1..][j]) in types {
          assert candidates[1..][j] == candidates[j + 1];
        }
      }
      PickNameAt(candidates[1..], types, k - 1);
    }
  }

  /** `deduplicateGQLTypes`: one fresh registry for the whole list. */
  method DeduplicateGQLTypes(gqlTypes: seq<GQLType>) returns (r: seq<GQLType>)
    ensures r == DeduplicatedTypes(gqlTypes)
  {
    var context := new TypeRegistry();
    var deduplicated: seq<GQLType> := [];
    var i := 0;
    while i < |gqlTypes|
      invariant 0 <= i <= |gqlTypes|
      invariant (deduplicated, context.types) == DeduplicatedAll(map[], gqlTypes[..i])
    {
      assert gqlTypes[..i + 1][..i] == gqlTypes[..i];
      var out := context.DeduplicateGQLType(gqlTypes[i]);
      deduplicated := deduplicated + out;
      i := i + 1;
    }
    assert gqlTypes[..i] == gqlTypes;
    r := LastByKey(deduplicated, GenerateGQLTypeId);
  }

  /** `extractGQLTypes`. */
  method ExtractGQLTypes(schema: Schema, def: Definition, fuel: nat) returns (r: Result<seq<GQLType>>)
    ensures r == ExtractedTypes(schema, def, fuel)
  {
    if !def.OperationDef? {
      return Success([]);
    }
    var input := ExtractInputType(def.variableDefinitions, Context(schema, ["variables"], true), fuel);
    if input.Failure? {
      return Failure(input.error);
    }
    var keyword := OperationKeyword(def.operation);
    var operation := ExtractGQLType(keyword, SelectionSet(def.selections), Context(schema, [keyword], false), fuel);
    if operation.Failure? {
      return Failure(operation.error);
    }
    var types := DeduplicateGQLTypes([input.value, operation.value]);
    r := Success(types);
  }
}
